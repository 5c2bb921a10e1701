/**
 The code generator of src/compiler/generator.c: a statement becomes a list of virtual-machine instructions,
 collected in an array that doubles when it is full.

 `Decode` gives back the statement of every program but those of INSERT. For INSERT the program does not determine
 the statement: `DecodeInsert` gives back its slots, `SameInsertCode` says exactly which INSERTs share their code,
 `DeterminedExactly` which one does not share it with any other.
 */
module Generator {
  import opened Options
  import opened Tokenizer
  import G = Grammar
  import FrontEnd

  datatype Opcode =
    | OpCreateTable | OpOpenTable | OpDefineSchema | OpInsert | OpSearch | OpReturnRow | OpHalt
    | OpBeginTxn | OpCommit | OpRollback

  datatype Instruction = Instruction(opcode: Opcode, param1: int, param2: int, text: Option<string>)

  // What is compiled: the parser's statements, and ROLLBACK, for which it has no syntax.
  datatype Source = Query(stmt: G.Statement) | Rollback

  function Plain(opcode: Opcode): Instruction {
    Instruction(opcode, 0, 0, None)
  }

  function Named(opcode: Opcode, name: string): Instruction {
    Instruction(opcode, 0, 0, Some(name))
  }

  // ---------- the code of a statement ----------

  function SearchOf(columns: seq<string>, i: nat): Instruction
    requires i < |columns|
  {
    if columns[i] == "*" then Instruction(OpSearch, -1, 0, None) else Instruction(OpSearch, i, 0, Some(columns[i]))
  }

  // The searches for the first n columns.
  function Searches(columns: seq<string>, n: nat): seq<Instruction>
    requires n <= |columns|
  {
    seq(n, i requires 0 <= i < n => SearchOf(columns, i))
  }

  function SelectCode(columns: seq<string>, table: string): seq<Instruction> {
    [Named(OpOpenTable, table)] + Searches(columns, |columns|) + [Plain(OpReturnRow), Plain(OpHalt)]
  }

  function InsertOf(columns: seq<string>, values: seq<G.Value>, i: nat): Instruction
    requires i < |columns| && i < |values|
  {
    match values[i]
    case Integer(n) => Instruction(OpInsert, i, n, Some(columns[i]))
    case Text(text) => Instruction(OpInsert, i, 0, Some(text))
  }

  function Inserts(columns: seq<string>, values: seq<G.Value>, n: nat): seq<Instruction>
    requires n <= |columns| && n <= |values|
  {
    seq(n, i requires 0 <= i < n => InsertOf(columns, values, i))
  }

  // The code up to and including the first n inserts.
  function InsertStart(table: string, columns: seq<string>, values: seq<G.Value>, n: nat): seq<Instruction>
    requires n <= |columns| && n <= |values|
  {
    [Plain(OpBeginTxn), Named(OpOpenTable, table)] + Inserts(columns, values, n)
  }

  function InsertCode(table: string, columns: seq<string>, values: seq<G.Value>): seq<Instruction>
    requires |columns| <= |values|
  {
    InsertStart(table, columns, values, |columns|) + [Plain(OpCommit), Plain(OpHalt)]
  }

  function SchemaOf(def: G.ColumnDef): Instruction {
    Instruction(OpDefineSchema, if def.columnType.IntColumn? then 1 else 2, def.length, Some(def.name))
  }

  function Schemas(defs: seq<G.ColumnDef>, n: nat): seq<Instruction>
    requires n <= |defs|
  {
    seq(n, i requires 0 <= i < n => SchemaOf(defs[i]))
  }

  function CreateCode(table: string, defs: seq<G.ColumnDef>): seq<Instruction> {
    [Named(OpCreateTable, table)] + Schemas(defs, |defs|) + [Plain(OpCommit), Plain(OpHalt)]
  }

  // The generator reads the value of every listed column; it does not look whether there is one.
  predicate Compilable(source: Source) {
    source.Query? && source.stmt.InsertStmt? ==> |source.stmt.columns| <= |source.stmt.values|
  }

  function Code(source: Source): seq<Instruction>
    requires Compilable(source)
  {
    match source
    case Rollback => [Plain(OpRollback), Plain(OpHalt)]
    case Query(stmt) =>
      match stmt
      case SelectStmt(columns, table) => SelectCode(columns, table)
      case InsertStmt(table, columns, values) => InsertCode(table, columns, values)
      case CreateStmt(table, defs) => CreateCode(table, defs)
      case BeginStmt => [Plain(OpBeginTxn), Plain(OpHalt)]
      case CommitStmt => [Plain(OpCommit), Plain(OpHalt)]
  }

  // ---------- the program under construction ----------

  class CompiledProgram {
    var instructions: array<Instruction>
    var count: nat
    var capacity: nat

    ghost predicate Valid()
      reads this
    {
      count <= capacity == instructions.Length && (capacity == 16 || 16 < capacity < 2 * count)
    }

    ghost function Contents(): seq<Instruction>
      requires Valid()
      reads this, instructions
    {
      instructions[..count]
    }

    constructor ()
      ensures Valid() && fresh(instructions) && Contents() == []
    {
      capacity := 16;
      count := 0;
      instructions := new Instruction[16](_ => Plain(OpHalt));
    }

    method Emit(opcode: Opcode, param1: int, param2: int, text: Option<string>)
      requires Valid()
      modifies this, instructions
      ensures Valid() && (instructions == old(instructions) || fresh(instructions))
      ensures Contents() == old(Contents()) + [Instruction(opcode, param1, param2, text)]
    {
      if count >= capacity {
        capacity := capacity * 2;
        var larger := new Instruction[capacity](_ => Plain(OpHalt));
        forall i | 0 <= i < count {
          larger[i] := instructions[i];
        }
        instructions := larger;
      }
      instructions[count] := Instruction(opcode, param1, param2, text);
      count := count + 1;
    }
  }

  // The last two instructions behind the items, behind the head of the program.
  lemma Assembled(before: seq<Instruction>, head: seq<Instruction>, items: seq<Instruction>,
                  x: Instruction, y: Instruction)
    ensures (((before + head) + items) + [x]) + [y] == before + (head + items + [x, y])
  {
  }

  lemma SearchesNext(columns: seq<string>, start: seq<Instruction>, i: nat)
    requires i < |columns|
    ensures (start + Searches(columns, i)) + [SearchOf(columns, i)] == start + Searches(columns, i + 1)
  {
    assert Searches(columns, i + 1) == Searches(columns, i) + [SearchOf(columns, i)];
  }

  lemma InsertNext(table: string, columns: seq<string>, values: seq<G.Value>, before: seq<Instruction>, i: nat)
    requires i < |columns| && i < |values|
    ensures (before + InsertStart(table, columns, values, i)) + [InsertOf(columns, values, i)]
         == before + InsertStart(table, columns, values, i + 1)
  {
    assert Inserts(columns, values, i + 1) == Inserts(columns, values, i) + [InsertOf(columns, values, i)];
  }

  lemma InsertEnd(table: string, columns: seq<string>, values: seq<G.Value>, before: seq<Instruction>)
    requires |columns| <= |values|
    ensures ((before + InsertStart(table, columns, values, |columns|)) + [Plain(OpCommit)]) + [Plain(OpHalt)]
         == before + InsertCode(table, columns, values)
  {
  }

  lemma SchemasNext(defs: seq<G.ColumnDef>, start: seq<Instruction>, i: nat)
    requires i < |defs|
    ensures (start + Schemas(defs, i)) + [SchemaOf(defs[i])] == start + Schemas(defs, i + 1)
  {
    assert Schemas(defs, i + 1) == Schemas(defs, i) + [SchemaOf(defs[i])];
  }

  method GenerateSelect(program: CompiledProgram, columns: seq<string>, table: string)
    requires program.Valid()
    modifies program, program.instructions
    ensures program.Valid() && (program.instructions == old(program.instructions) || fresh(program.instructions))
    ensures program.Contents() == old(program.Contents()) + SelectCode(columns, table)
  {
    ghost var before := program.Contents();
    program.Emit(OpOpenTable, 0, 0, Some(table));
    ghost var start := program.Contents();
    assert start == start + Searches(columns, 0);
    hide CompiledProgram.Valid, CompiledProgram.Contents, Searches;
    for i := 0 to |columns|
      invariant program.Valid() && (program.instructions == old(program.instructions) || fresh(program.instructions))
      invariant program.Contents() == start + Searches(columns, i)
    {
      SearchesNext(columns, start, i);
      if columns[i] == "*" {
        program.Emit(OpSearch, -1, 0, None);
      } else {
        program.Emit(OpSearch, i, 0, Some(columns[i]));
      }
    }
    program.Emit(OpReturnRow, 0, 0, None);
    program.Emit(OpHalt, 0, 0, None);
    Assembled(before, [Named(OpOpenTable, table)], Searches(columns, |columns|), Plain(OpReturnRow), Plain(OpHalt));
  }

  // For every listed column the program takes the value at its place; where there is none it leaves the array, and
  // what happens then is undefined. The result tells whether it stayed inside.
  method GenerateInsert(program: CompiledProgram, table: string, columns: seq<string>, values: seq<G.Value>)
    returns (inside: bool)
    requires program.Valid()
    modifies program, program.instructions
    ensures program.Valid() && (program.instructions == old(program.instructions) || fresh(program.instructions))
    ensures inside <==> |columns| <= |values|
    ensures program.Contents()
         == old(program.Contents())
            + if inside then InsertCode(table, columns, values) else InsertStart(table, columns, values, |values|)
  {
    ghost var before := program.Contents();
    program.Emit(OpBeginTxn, 0, 0, None);
    program.Emit(OpOpenTable, 0, 0, Some(table));
    assert program.Contents() == before + InsertStart(table, columns, values, 0);
    hide CompiledProgram.Valid, CompiledProgram.Contents, InsertStart;
    for i := 0 to |columns|
      invariant program.Valid() && (program.instructions == old(program.instructions) || fresh(program.instructions))
      invariant i <= |values| && program.Contents() == before + InsertStart(table, columns, values, i)
    {
      if i == |values| {
        return false;
      }
      InsertNext(table, columns, values, before, i);
      if values[i].Integer? {
        program.Emit(OpInsert, i, values[i].n, Some(columns[i]));
      } else {
        program.Emit(OpInsert, i, 0, Some(values[i].text));
      }
    }
    program.Emit(OpCommit, 0, 0, None);
    program.Emit(OpHalt, 0, 0, None);
    InsertEnd(table, columns, values, before);
    inside := true;
  }

  method GenerateCreate(program: CompiledProgram, table: string, defs: seq<G.ColumnDef>)
    requires program.Valid()
    modifies program, program.instructions
    ensures program.Valid() && (program.instructions == old(program.instructions) || fresh(program.instructions))
    ensures program.Contents() == old(program.Contents()) + CreateCode(table, defs)
  {
    ghost var before := program.Contents();
    program.Emit(OpCreateTable, 0, 0, Some(table));
    ghost var start := program.Contents();
    assert start == start + Schemas(defs, 0);
    hide CompiledProgram.Valid, CompiledProgram.Contents, Schemas;
    for i := 0 to |defs|
      invariant program.Valid() && (program.instructions == old(program.instructions) || fresh(program.instructions))
      invariant program.Contents() == start + Schemas(defs, i)
    {
      SchemasNext(defs, start, i);
      var columnType := if defs[i].columnType.IntColumn? then 1 else 2;
      program.Emit(OpDefineSchema, columnType, defs[i].length, Some(defs[i].name));
    }
    program.Emit(OpCommit, 0, 0, None);
    program.Emit(OpHalt, 0, 0, None);
    Assembled(before, [Named(OpCreateTable, table)], Schemas(defs, |defs|), Plain(OpCommit), Plain(OpHalt));
  }

  method GenerateControl(program: CompiledProgram, opcode: Opcode)
    requires program.Valid()
    modifies program, program.instructions
    ensures program.Valid() && (program.instructions == old(program.instructions) || fresh(program.instructions))
    ensures program.Contents() == old(program.Contents()) + [Plain(opcode), Plain(OpHalt)]
  {
    program.Emit(opcode, 0, 0, None);
    program.Emit(OpHalt, 0, 0, None);
  }

  // The program of a statement; only for an INSERT with more columns than values does the generator leave the values.
  method GenerateCode(source: Source) returns (program: CompiledProgram, inside: bool)
    ensures program.Valid() && fresh(program) && fresh(program.instructions)
    ensures inside <==> Compilable(source)
    ensures inside ==> program.Contents() == Code(source)
  {
    program := new CompiledProgram();
    inside := true;
    match source
    case Rollback => GenerateControl(program, OpRollback);
    case Query(stmt) =>
      match stmt
      case SelectStmt(columns, table) => GenerateSelect(program, columns, table);
      case InsertStmt(table, columns, values) => inside := GenerateInsert(program, table, columns, values);
      case CreateStmt(table, defs) => GenerateCreate(program, table, defs);
      case BeginStmt => GenerateControl(program, OpBeginTxn);
      case CommitStmt => GenerateControl(program, OpCommit);
  }

  // ---------- back from code to statements ----------

  // The instructions between the first and the last two.
  function Middle(code: seq<Instruction>): seq<Instruction>
    requires |code| >= 3
  {
    code[1..|code| - 2]
  }

  // An instruction that carries nothing but a text.
  predicate IsNamed(i: Instruction, opcode: Opcode) {
    i.opcode == opcode && i.param1 == 0 && i.param2 == 0 && i.text.Some?
  }

  // Head, items and the two instructions of the end.
  predicate Framed(code: seq<Instruction>, head: Opcode, end: Opcode) {
    |code| >= 3 && IsNamed(code[0], head)
    && code[|code| - 2] == Plain(end) && code[|code| - 1] == Plain(OpHalt)
  }

  // The search for the column at position k, -1 standing for all columns.
  predicate IsSearch(i: Instruction, k: nat) {
    i.opcode == OpSearch && i.param2 == 0
    && if i.text.None? then i.param1 == -1 else i.param1 == k && i.text.value != "*"
  }

  predicate IsSchema(i: Instruction) {
    i.opcode == OpDefineSchema && (i.param1 == 1 || i.param1 == 2) && i.text.Some?
  }

  function ColumnOf(i: Instruction): string {
    if i.text.Some? then i.text.value else "*"
  }

  function DefOf(i: Instruction): G.ColumnDef
    requires IsSchema(i)
  {
    G.ColumnDef(i.text.value, if i.param1 == 1 then G.IntColumn else G.VarcharColumn, i.param2)
  }

  function DecodeSelect(code: seq<Instruction>): Option<Source>
    requires Framed(code, OpOpenTable, OpReturnRow)
  {
    var items := Middle(code);
    if forall k :: 0 <= k < |items| ==> IsSearch(items[k], k) then
      Some(Query(G.SelectStmt(seq(|items|, k requires 0 <= k < |items| => ColumnOf(items[k])), code[0].text.value)))
    else
      None
  }

  function DecodeCreate(code: seq<Instruction>): Option<Source>
    requires Framed(code, OpCreateTable, OpCommit)
  {
    var items := Middle(code);
    if forall k :: 0 <= k < |items| ==> IsSchema(items[k]) then
      Some(Query(G.CreateStmt(code[0].text.value,
                              seq(|items|, k requires 0 <= k < |items| && IsSchema(items[k]) => DefOf(items[k])))))
    else
      None
  }

  // The statement that a program was compiled from, found by looking at its instructions; INSERTs are not decoded.
  function Decode(code: seq<Instruction>): Option<Source> {
    if code == [Plain(OpBeginTxn), Plain(OpHalt)] then Some(Query(G.BeginStmt))
    else if code == [Plain(OpCommit), Plain(OpHalt)] then Some(Query(G.CommitStmt))
    else if code == [Plain(OpRollback), Plain(OpHalt)] then Some(Rollback)
    else if Framed(code, OpOpenTable, OpReturnRow) then DecodeSelect(code)
    else if Framed(code, OpCreateTable, OpCommit) then DecodeCreate(code)
    else None
  }

  predicate IsInsert(source: Source) {
    source.Query? && source.stmt.InsertStmt?
  }

  lemma SelectDecoded(columns: seq<string>, table: string)
    ensures Decode(SelectCode(columns, table)) == Some(Query(G.SelectStmt(columns, table)))
  {
    var code := SelectCode(columns, table);
    assert Middle(code) == Searches(columns, |columns|);
    assert DecodeSelect(code).value.stmt.columns == columns;
  }

  lemma CreateDecoded(table: string, defs: seq<G.ColumnDef>)
    ensures Decode(CreateCode(table, defs)) == Some(Query(G.CreateStmt(table, defs)))
  {
    var code := CreateCode(table, defs);
    assert Middle(code) == Schemas(defs, |defs|);
    assert DecodeCreate(code).value.stmt.defs == defs;
  }

  lemma FramedParts(code: seq<Instruction>, head: Opcode, end: Opcode)
    requires Framed(code, head, end)
    ensures code == [Named(head, code[0].text.value)] + Middle(code) + [Plain(end), Plain(OpHalt)]
  {
  }

  lemma DecodedSelect(code: seq<Instruction>)
    requires Framed(code, OpOpenTable, OpReturnRow) && DecodeSelect(code).Some?
    ensures Code(DecodeSelect(code).value) == code
  {
    FramedParts(code, OpOpenTable, OpReturnRow);
    var columns := DecodeSelect(code).value.stmt.columns;
    assert Searches(columns, |columns|) == Middle(code);
  }

  lemma DecodedCreate(code: seq<Instruction>)
    requires Framed(code, OpCreateTable, OpCommit) && DecodeCreate(code).Some?
    ensures Code(DecodeCreate(code).value) == code
  {
    FramedParts(code, OpCreateTable, OpCommit);
    var defs := DecodeCreate(code).value.stmt.defs;
    assert Schemas(defs, |defs|) == Middle(code);
  }

  // ---------- what the programs hold, instruction by instruction ----------

  lemma ControlLayout()
    ensures Code(Query(G.BeginStmt)) == [Instruction(OpBeginTxn, 0, 0, None), Instruction(OpHalt, 0, 0, None)]
    ensures Code(Query(G.CommitStmt)) == [Instruction(OpCommit, 0, 0, None), Instruction(OpHalt, 0, 0, None)]
    ensures Code(Rollback) == [Instruction(OpRollback, 0, 0, None), Instruction(OpHalt, 0, 0, None)]
  {
  }

  // The table, a search for each column with its place, or for all with -1, and the row.
  lemma SelectLayout(columns: seq<string>, table: string)
    ensures var code := Code(Query(G.SelectStmt(columns, table)));
            |code| == |columns| + 3 && code[0] == Instruction(OpOpenTable, 0, 0, Some(table))
            && code[|code| - 2] == Instruction(OpReturnRow, 0, 0, None)
            && code[|code| - 1] == Instruction(OpHalt, 0, 0, None)
            && forall i :: 0 <= i < |columns| ==>
                 Middle(code)[i] == if columns[i] == "*" then Instruction(OpSearch, -1, 0, None)
                                    else Instruction(OpSearch, i, 0, Some(columns[i]))
  {
    assert Middle(SelectCode(columns, table)) == Searches(columns, |columns|);
  }

  // The table, and for each column 1 for INT or 2 for VARCHAR, the length, and the name.
  lemma CreateLayout(table: string, defs: seq<G.ColumnDef>)
    ensures var code := Code(Query(G.CreateStmt(table, defs)));
            |code| == |defs| + 3 && code[0] == Instruction(OpCreateTable, 0, 0, Some(table))
            && code[|code| - 2] == Instruction(OpCommit, 0, 0, None)
            && code[|code| - 1] == Instruction(OpHalt, 0, 0, None)
            && forall i :: 0 <= i < |defs| ==>
                 Middle(code)[i].opcode == OpDefineSchema && Middle(code)[i].param2 == defs[i].length
                 && Middle(code)[i].text == Some(defs[i].name)
                 && (Middle(code)[i].param1 == 1 <==> defs[i].columnType.IntColumn?)
                 && (Middle(code)[i].param1 == 2 <==> defs[i].columnType.VarcharColumn?)
  {
    assert Middle(CreateCode(table, defs)) == Schemas(defs, |defs|);
  }

  // A program decodes to a statement exactly when it is the code of that statement, which is no INSERT.
  lemma DecodesExactly(code: seq<Instruction>, source: Source)
    ensures Decode(code) == Some(source) <==> !IsInsert(source) && Code(source) == code
  {
    hide Middle, DecodeSelect, DecodeCreate, SelectCode, CreateCode;
    if !IsInsert(source) && Code(source) == code {
      CodeDecodes(source);
    }
    if Decode(code) == Some(source) {
      DecodedIsCode(code);
    }
  }

  lemma CodeDecodes(source: Source)
    requires !IsInsert(source)
    ensures Decode(Code(source)) == Some(source)
  {
    match source
    case Rollback =>
    case Query(stmt) =>
      match stmt
      case SelectStmt(columns, table) => SelectDecoded(columns, table);
      case CreateStmt(table, defs) => CreateDecoded(table, defs);
      case BeginStmt =>
      case CommitStmt =>
  }

  lemma DecodedIsCode(code: seq<Instruction>)
    requires Decode(code).Some?
    ensures !IsInsert(Decode(code).value) && Code(Decode(code).value) == code
  {
    if Framed(code, OpOpenTable, OpReturnRow) {
      DecodedSelect(code);
    } else if Framed(code, OpCreateTable, OpCommit) {
      DecodedCreate(code);
    }
  }

  // No other statement, INSERTs included, has the code of a statement that is no INSERT.
  lemma CodeIsInjective(a: Source, b: Source)
    requires Compilable(a) && Compilable(b) && !IsInsert(a) && Code(a) == Code(b)
    ensures a == b
  {
    InsertCodeDiffers(a, b);
    DecodesExactly(Code(a), a);
    DecodesExactly(Code(b), b);
  }

  lemma InsertCodeDiffers(a: Source, b: Source)
    requires Compilable(a) && Compilable(b)
    ensures !IsInsert(a) && IsInsert(b) ==> Code(a) != Code(b)
  {
    assert IsInsert(b) ==> Code(b)[0] == Plain(OpBeginTxn) && |Code(b)| >= 4;
  }

  // ---------- INSERT ----------

  // Column and value as they reach the program: an integer 0 looks like the name of its column as a text.
  predicate SameSlot(a: string, v: G.Value, b: string, w: G.Value) {
    if v.Integer? && w.Integer? then a == b && v == w
    else if v.Text? && w.Text? then v == w
    else if v.Integer? then v.n == 0 && w.text == a
    else w.n == 0 && v.text == b
  }

  ghost predicate SameSlots(a: G.Statement, b: G.Statement)
    requires Compilable(Query(a)) && Compilable(Query(b)) && a.InsertStmt? && b.InsertStmt?
  {
    |a.columns| == |b.columns| && a.table == b.table
    && forall i :: 0 <= i < |a.columns| ==> SameSlot(a.columns[i], a.values[i], b.columns[i], b.values[i])
  }

  lemma SlotOf(a: G.Statement, i: nat)
    requires Compilable(Query(a)) && a.InsertStmt? && i < |a.columns|
    ensures Code(Query(a))[i + 2] == InsertOf(a.columns, a.values, i)
  {
  }

  // Which INSERTs have the same code.
  lemma SameInsertCode(a: G.Statement, b: G.Statement)
    requires Compilable(Query(a)) && Compilable(Query(b)) && a.InsertStmt? && b.InsertStmt?
    ensures Code(Query(a)) == Code(Query(b)) <==> SameSlots(a, b)
  {
    if Code(Query(a)) == Code(Query(b)) {
      assert Code(Query(a))[1] == Named(OpOpenTable, a.table);
      assert Code(Query(b))[1] == Named(OpOpenTable, b.table);
      forall i | 0 <= i < |a.columns| ensures SameSlot(a.columns[i], a.values[i], b.columns[i], b.values[i]) {
        SlotOf(a, i);
        SlotOf(b, i);
      }
    }
    if SameSlots(a, b) {
      assert Inserts(a.columns, a.values, |a.columns|) == Inserts(b.columns, b.values, |b.columns|);
    }
  }

  // What is between the two instructions at the start of an INSERT and the two at its end.
  function InsertSlots(code: seq<Instruction>): seq<Instruction>
    requires |code| >= 4
  {
    code[2..|code| - 2]
  }

  // What the program of an INSERT holds: the frame, and for the i-th listed column its place, and an integer with the
  // name of the column or a text alone.
  lemma InsertLayout(a: G.Statement)
    requires Compilable(Query(a)) && a.InsertStmt?
    ensures var code := Code(Query(a));
            |code| == |a.columns| + 4
            && code[0] == Instruction(OpBeginTxn, 0, 0, None)
            && code[1] == Instruction(OpOpenTable, 0, 0, Some(a.table))
            && code[|code| - 2] == Instruction(OpCommit, 0, 0, None)
            && code[|code| - 1] == Instruction(OpHalt, 0, 0, None)
    ensures var slots := InsertSlots(Code(Query(a)));
            |slots| == |a.columns|
            && forall i :: 0 <= i < |slots| ==>
                 slots[i].opcode == OpInsert && slots[i].param1 == i
                 && (a.values[i].Integer? ==> slots[i].param2 == a.values[i].n && slots[i].text == Some(a.columns[i]))
                 && (a.values[i].Text? ==> slots[i].param2 == 0 && slots[i].text == Some(a.values[i].text))
  {
    var slots := InsertSlots(Code(Query(a)));
    forall i | 0 <= i < |slots| ensures slots[i] == InsertOf(a.columns, a.values, i) {
      SlotOf(a, i);
    }
  }

  predicate IsInsertSlot(i: Instruction, k: nat) {
    i.opcode == OpInsert && i.param1 == k && i.text.Some?
  }

  predicate AreInsertSlots(slots: seq<Instruction>) {
    forall k :: 0 <= k < |slots| ==> IsInsertSlot(slots[k], k)
  }

  // The INSERT of integers that has this code, whatever the values of the compiled one were.
  function DecodeInsert(code: seq<Instruction>): Option<G.Statement> {
    if |code| >= 4 && code[0] == Plain(OpBeginTxn) && IsNamed(code[1], OpOpenTable)
       && code[|code| - 2] == Plain(OpCommit) && code[|code| - 1] == Plain(OpHalt) && AreInsertSlots(InsertSlots(code))
    then
      var slots := InsertSlots(code);
      Some(G.InsertStmt(code[1].text.value, seq(|slots|, k requires 0 <= k < |slots| => ColumnOf(slots[k])),
                        seq(|slots|, k requires 0 <= k < |slots| => G.Integer(slots[k].param2))))
    else
      None
  }

  lemma DecodedInsertIsCode(code: seq<Instruction>)
    requires DecodeInsert(code).Some?
    ensures Compilable(Query(DecodeInsert(code).value)) && Code(Query(DecodeInsert(code).value)) == code
  {
    var b := DecodeInsert(code).value;
    var slots := InsertSlots(code);
    forall i | 0 <= i < |code| ensures Code(Query(b))[i] == code[i] {
      if 2 <= i < |code| - 2 {
        SlotOf(b, i - 2);
        assert IsInsertSlot(slots[i - 2], i - 2) && slots[i - 2] == code[i];
      }
    }
  }

  lemma InsertIsDecoded(a: G.Statement)
    requires Compilable(Query(a)) && a.InsertStmt?
    ensures DecodeInsert(Code(Query(a))).Some?
  {
    hide Code, InsertSlots;
    InsertLayout(a);
    var slots := InsertSlots(Code(Query(a)));
    forall k | 0 <= k < |slots| ensures IsInsertSlot(slots[k], k) {
      assert a.values[k].Integer? || a.values[k].Text?;
    }
  }

  // A program is that of an INSERT exactly when it decodes to one with the same slots.
  lemma DecodesInsertExactly(code: seq<Instruction>, a: G.Statement)
    requires Compilable(Query(a)) && a.InsertStmt?
    ensures DecodeInsert(code).Some? ==> Compilable(Query(DecodeInsert(code).value))
    ensures Code(Query(a)) == code <==> DecodeInsert(code).Some? && SameSlots(a, DecodeInsert(code).value)
  {
    hide Code, DecodeInsert, SameSlots;
    InsertIsDecoded(a);
    if DecodeInsert(code).Some? {
      DecodedInsertIsCode(code);
      DecodedIsInsert(code);
      SameInsertCode(a, DecodeInsert(code).value);
    }
  }

  lemma DecodedIsInsert(code: seq<Instruction>)
    ensures DecodeInsert(code).Some? ==> DecodeInsert(code).value.InsertStmt?
  {
  }

  // One value for every column, as the debugging entry point parse_tokens demands.
  predicate Matched(stmt: G.Statement) {
    stmt.InsertStmt? && |stmt.columns| == |stmt.values|
  }

  ghost predicate Determined(stmt: G.Statement)
    requires Matched(stmt)
  {
    forall other :: G.WellFormed(other) && Matched(other) && Code(Query(other)) == Code(Query(stmt)) ==> other == stmt
  }

  lemma {:induction false} NameIsBody(name: string)
    requires forall i :: 0 <= i < |name| ==> name[i] != '\''
    ensures G.ValueOk(G.Text(name))
    decreases |name|
  {
    if name != "" {
      NameIsBody(name[1..]);
      assert (name + "'")[1..] == name[1..] + "'";
    }
  }

  // Another name for the column of a text value.
  lemma TextLookalike(stmt: G.Statement, i: nat) returns (other: G.Statement)
    requires G.WellFormed(stmt) && Matched(stmt) && i < |stmt.values| && stmt.values[i].Text?
    ensures G.WellFormed(other) && Matched(other) && Code(Query(other)) == Code(Query(stmt)) && other != stmt
  {
    assert G.IsName("a") && G.IsName("b");
    var name := if stmt.columns[i] == "a" then "b" else "a";
    hide G.IsName, G.ValueOk, Code;
    other := G.InsertStmt(stmt.table, stmt.columns[i := name], stmt.values);
    assert other.columns[i] != stmt.columns[i];
    SameInsertCode(other, stmt);
  }

  // The name of the column as a text in place of the integer 0.
  lemma ZeroLookalike(stmt: G.Statement, i: nat) returns (other: G.Statement)
    requires G.WellFormed(stmt) && Matched(stmt) && i < |stmt.values| && stmt.values[i] == G.Integer(0)
    ensures G.WellFormed(other) && Matched(other) && Code(Query(other)) == Code(Query(stmt)) && other != stmt
  {
    var name := stmt.columns[i];
    assert G.IsName(name);
    assert IsIdentifier(name) by { NamesAreIdentifiers(name); }
    NameIsBody(name);
    hide G.IsName, G.ValueOk, Code;
    other := G.InsertStmt(stmt.table, stmt.columns, stmt.values[i := G.Text(name)]);
    assert other.values[i] != stmt.values[i];
    SameInsertCode(other, stmt);
  }

  lemma NamesAreIdentifiers(name: string)
    requires G.IsName(name)
    ensures IsIdentifier(name)
  {
  }

  // The code of a well-formed INSERT determines it exactly when all its values are integers other than 0.
  lemma DeterminedExactly(stmt: G.Statement)
    requires G.WellFormed(stmt) && Matched(stmt)
    ensures Determined(stmt) <==> forall v :: v in stmt.values ==> v.Integer? && v.n != 0
  {
    if forall v :: v in stmt.values ==> v.Integer? && v.n != 0 {
      forall other | G.WellFormed(other) && Matched(other) && Code(Query(other)) == Code(Query(stmt))
        ensures other == stmt
      {
        SameInsertCode(other, stmt);
        assert forall i :: 0 <= i < |stmt.values| ==> stmt.values[i] in stmt.values;
        assert other.columns == stmt.columns && other.values == stmt.values;
      }
    } else {
      var i :| 0 <= i < |stmt.values| && !(stmt.values[i].Integer? && stmt.values[i].n != 0);
      var other;
      if stmt.values[i].Text? {
        other := TextLookalike(stmt, i);
      } else {
        other := ZeroLookalike(stmt, i);
      }
    }
  }

  // Values beyond the listed columns leave no trace, so without a column list nothing is inserted.
  lemma ExtraValuesVanish(table: string, columns: seq<string>, values: seq<G.Value>)
    requires |columns| <= |values|
    ensures Code(Query(G.InsertStmt(table, columns, values)))
         == Code(Query(G.InsertStmt(table, columns, values[..|columns|])))
  {
    SameInsertCode(G.InsertStmt(table, columns, values), G.InsertStmt(table, columns, values[..|columns|]));
  }

  // ---------- the whole compiler ----------

  // Lexer, parser and generator one after the other.
  function CompileText(text: string): Option<seq<Instruction>> {
    match G.ParseText(text)
    case Some(stmt) => if Compilable(Query(stmt)) then Some(Code(Query(stmt))) else None
    case None => None
  }

  // The text of a statement compiles to its code, from which the statement can be read back unless it is an INSERT.
  lemma {:induction false} TextToCodeAndBack(stmt: G.Statement)
    requires G.WellFormed(stmt) && Compilable(Query(stmt))
    ensures CompileText(G.Print(stmt)) == Some(Code(Query(stmt)))
    ensures Decode(Code(Query(stmt))) == if stmt.InsertStmt? then None else Some(Query(stmt))
  {
    hide G.ParseText, G.Print, G.WellFormed, Code, Decode;
    FrontEnd.PrintThenParse(stmt);
    if !stmt.InsertStmt? {
      DecodesExactly(Code(Query(stmt)), Query(stmt));
    } else {
      InsertIsNotDecoded(stmt);
    }
  }

  lemma InsertIsNotDecoded(stmt: G.Statement)
    requires stmt.InsertStmt? && Compilable(Query(stmt))
    ensures Decode(Code(Query(stmt))) == None
  {
    hide Code;
    var code := Code(Query(stmt));
    if Decode(code).Some? {
      DecodesExactly(code, Decode(code).value);
      InsertCodeDiffers(Decode(code).value, Query(stmt));
    }
  }
}
