/**
 The statements of src/compiler/parser.c: their syntax trees, what the recursive-descent routines read from a
 token list, and the tokens that a tree is written with.

 `ParseTokens` undoes `Tokens` on every well-formed tree, and everything it accepts is a well-formed tree.
 */
module Grammar {
  import opened Options
  import opened Tokenizer
  import opened Layout

  datatype Value = Text(text: string) | Integer(n: int)

  datatype ColumnType = IntColumn | VarcharColumn

  datatype ColumnDef = ColumnDef(name: string, columnType: ColumnType, length: int)

  datatype Statement =
    | SelectStmt(columns: seq<string>, table: string)
    | InsertStmt(table: string, columns: seq<string>, values: seq<Value>)
    | CreateStmt(table: string, defs: seq<ColumnDef>)
    | BeginStmt
    | CommitStmt

  // The outcome of a routine: what it returns, and the tokens it leaves, also when it fails.
  datatype Parsed<+T> = Parsed(value: Option<T>, rest: seq<Token>)

  const DEFAULT_VARCHAR_LENGTH := 255

  // ---------- decimal numbers ----------

  function DigitValue(c: char): nat {
    if IsDigit(c) then c as int - '0' as int else 0
  }

  // atoi on a string of digits
  function Atoi(s: string): nat {
    if s == "" then 0 else 10 * Atoi(s[..|s| - 1]) + DigitValue(s[|s| - 1])
  }

  function DigitChar(d: nat): char
    requires d < 10
  {
    ('0' as int + d) as char
  }

  function Decimal(n: nat): string {
    if n < 10 then [DigitChar(n)] else Decimal(n / 10) + [DigitChar(n % 10)]
  }

  // ---------- what the routines read ----------

  // expect: one token is consumed even if it is the wrong one
  function Expect(ts: seq<Token>, kind: TokenType): (r: Parsed<Token>)
    ensures |r.rest| <= |ts|
    ensures r.value.Some? ==> |r.rest| < |ts|
  {
    if ts == [] then Parsed(None, []) else Parsed(if ts[0].kind == kind then Some(ts[0]) else None, ts[1..])
  }

  // peek and match
  predicate At(ts: seq<Token>, kind: TokenType) {
    ts != [] && ts[0].kind == kind
  }

  // A comma-separated list of identifiers.
  function ParseNames(ts: seq<Token>): (r: Parsed<seq<string>>)
    ensures |r.rest| <= |ts|
    decreases |ts|
  {
    var name := Expect(ts, Identifier);
    if name.value.None? then
      Parsed(None, name.rest)
    else if At(name.rest, Comma) then
      var more := ParseNames(name.rest[1..]);
      Parsed(if more.value.None? then None else Some([name.value.value.lexeme] + more.value.value), more.rest)
    else
      Parsed(Some([name.value.value.lexeme]), name.rest)
  }

  // strndup(lexeme + 1, strlen(lexeme) - 2)
  function Unquote(s: string): string {
    if |s| < 2 then "" else s[1..|s| - 1]
  }

  function ParseValue(ts: seq<Token>): (r: Parsed<Value>)
    ensures |r.rest| <= |ts|
    ensures r.value.Some? ==> |r.rest| < |ts|
  {
    if ts == [] then Parsed(None, [])
    else if ts[0].kind == VarcharLiteral then Parsed(Some(Text(Unquote(ts[0].lexeme))), ts[1..])
    else if ts[0].kind == IntLiteral then Parsed(Some(Integer(Atoi(ts[0].lexeme))), ts[1..])
    else Parsed(None, ts[1..])
  }

  function ParseValues(ts: seq<Token>): (r: Parsed<seq<Value>>)
    ensures |r.rest| <= |ts|
    decreases |ts|
  {
    var value := ParseValue(ts);
    if value.value.None? then
      Parsed(None, value.rest)
    else if At(value.rest, Comma) then
      var more := ParseValues(value.rest[1..]);
      Parsed(if more.value.None? then None else Some([value.value.value] + more.value.value), more.rest)
    else
      Parsed(Some([value.value.value]), value.rest)
  }

  // The length in parentheses behind VARCHAR, if there is one.
  function ParseLength(ts: seq<Token>): (r: Parsed<int>)
    ensures |r.rest| <= |ts|
  {
    if At(ts, OpenParen) then
      var length := Expect(ts[1..], IntLiteral);
      if length.value.None? then
        Parsed(None, length.rest)
      else
        var close := Expect(length.rest, CloseParen);
        Parsed(if close.value.None? then None else Some(Atoi(length.value.value.lexeme)), close.rest)
    else
      Parsed(Some(DEFAULT_VARCHAR_LENGTH), ts)
  }

  function ParseDef(ts: seq<Token>): (r: Parsed<ColumnDef>)
    ensures |r.rest| <= |ts|
    ensures r.value.Some? ==> |r.rest| < |ts|
  {
    var name := Expect(ts, Identifier);
    if name.value.None? then
      Parsed(None, name.rest)
    else if At(name.rest, TypeInt) then
      Parsed(Some(ColumnDef(name.value.value.lexeme, IntColumn, -1)), name.rest[1..])
    else if At(name.rest, TypeVarchar) then
      var length := ParseLength(name.rest[1..]);
      Parsed(if length.value.None? then None
             else Some(ColumnDef(name.value.value.lexeme, VarcharColumn, length.value.value)), length.rest)
    else
      Parsed(None, name.rest)
  }

  function ParseDefs(ts: seq<Token>): (r: Parsed<seq<ColumnDef>>)
    ensures |r.rest| <= |ts|
    decreases |ts|
  {
    var def := ParseDef(ts);
    if def.value.None? then
      Parsed(None, def.rest)
    else if At(def.rest, Comma) then
      var more := ParseDefs(def.rest[1..]);
      Parsed(if more.value.None? then None else Some([def.value.value] + more.value.value), more.rest)
    else
      Parsed(Some([def.value.value]), def.rest)
  }

  function ParseSelect(ts: seq<Token>): Parsed<Statement> {
    var keyword := Expect(ts, Select);
    if keyword.value.None? then Parsed(None, keyword.rest) else
    var columns := if At(keyword.rest, Star) then Parsed(Some(["*"]), keyword.rest[1..]) else ParseNames(keyword.rest);
    if columns.value.None? then Parsed(None, columns.rest) else
    var from := Expect(columns.rest, From);
    if from.value.None? then Parsed(None, from.rest) else
    var table := Expect(from.rest, Identifier);
    if table.value.None? then Parsed(None, table.rest) else
    // the semicolon is read, but its absence is not an error
    Parsed(Some(SelectStmt(columns.value.value, table.value.value.lexeme)), Expect(table.rest, EndOfLine).rest)
  }

  // The optional column list of an INSERT.
  function ParseColumnList(ts: seq<Token>): (r: Parsed<seq<string>>)
    ensures |r.rest| <= |ts|
  {
    if At(ts, OpenParen) then
      var names := ParseNames(ts[1..]);
      if names.value.None? then
        names
      else
        var close := Expect(names.rest, CloseParen);
        Parsed(if close.value.None? then None else names.value, close.rest)
    else
      Parsed(Some([]), ts)
  }

  function ParseInsert(ts: seq<Token>): Parsed<Statement> {
    var insert := Expect(ts, Insert);
    if insert.value.None? then Parsed(None, insert.rest) else
    var into := Expect(insert.rest, Into);
    if into.value.None? then Parsed(None, into.rest) else
    var table := Expect(into.rest, Identifier);
    if table.value.None? then Parsed(None, table.rest) else
    var columns := ParseColumnList(table.rest);
    if columns.value.None? then Parsed(None, columns.rest) else
    var keyword := Expect(columns.rest, TokenType.Values);
    if keyword.value.None? then Parsed(None, keyword.rest) else
    var open := Expect(keyword.rest, OpenParen);
    if open.value.None? then Parsed(None, open.rest) else
    var values := ParseValues(open.rest);
    if values.value.None? then Parsed(None, values.rest) else
    var close := Expect(values.rest, CloseParen);
    if close.value.None? then Parsed(None, close.rest) else
    var end := Expect(close.rest, EndOfLine);
    Parsed(if end.value.None? then None
           else Some(InsertStmt(table.value.value.lexeme, columns.value.value, values.value.value)), end.rest)
  }

  function ParseCreate(ts: seq<Token>): Parsed<Statement> {
    var create := Expect(ts, Create);
    if create.value.None? then Parsed(None, create.rest) else
    var keyword := Expect(create.rest, Table);
    if keyword.value.None? then Parsed(None, keyword.rest) else
    var table := Expect(keyword.rest, Identifier);
    if table.value.None? then Parsed(None, table.rest) else
    var open := Expect(table.rest, OpenParen);
    if open.value.None? then Parsed(None, open.rest) else
    var defs := ParseDefs(open.rest);
    if defs.value.None? then Parsed(None, defs.rest) else
    var close := Expect(defs.rest, CloseParen);
    if close.value.None? then Parsed(None, close.rest) else
    var end := Expect(close.rest, EndOfLine);
    Parsed(if end.value.None? then None
           else Some(CreateStmt(table.value.value.lexeme, defs.value.value)), end.rest)
  }

  function ParseBegin(ts: seq<Token>): Parsed<Statement> {
    var begin := Expect(ts, Begin);
    if begin.value.None? then Parsed(None, begin.rest) else
    var transaction := Expect(begin.rest, Transaction);
    if transaction.value.None? then Parsed(None, transaction.rest) else
    var end := Expect(transaction.rest, EndOfLine);
    Parsed(if end.value.None? then None else Some(BeginStmt), end.rest)
  }

  function ParseCommit(ts: seq<Token>): Parsed<Statement> {
    var commit := Expect(ts, Commit);
    if commit.value.None? then Parsed(None, commit.rest) else
    var end := Expect(commit.rest, EndOfLine);
    Parsed(if end.value.None? then None else Some(CommitStmt), end.rest)
  }

  // parse_tokens_with_type
  function ParseTokens(ts: seq<Token>): Option<Statement> {
    if At(ts, Select) then ParseSelect(ts).value
    else if At(ts, Insert) then ParseInsert(ts).value
    else if At(ts, Create) then ParseCreate(ts).value
    else if At(ts, Begin) then ParseBegin(ts).value
    else if At(ts, Commit) then ParseCommit(ts).value
    else None
  }

  // ---------- the tokens of a tree ----------

  predicate IsName(s: string) {
    Classify(s) == Some(Identifier)
  }

  predicate ValueOk(v: Value) {
    match v
    case Text(text) => IsBody(text + "'")
    case Integer(n) => n >= 0
  }

  predicate DefOk(d: ColumnDef) {
    IsName(d.name) && if d.columnType.IntColumn? then d.length == -1 else d.length >= 0
  }

  ghost predicate WellFormed(stmt: Statement) {
    match stmt
    case SelectStmt(columns, table) =>
      IsName(table) && (columns == ["*"] || (columns != [] && forall c :: c in columns ==> IsName(c)))
    case InsertStmt(table, columns, values) =>
      IsName(table) && (forall c :: c in columns ==> IsName(c))
      && values != [] && (forall v :: v in values ==> ValueOk(v))
    case CreateStmt(table, defs) =>
      IsName(table) && defs != [] && (forall d :: d in defs ==> DefOk(d))
    case BeginStmt => true
    case CommitStmt => true
  }

  function Tok(kind: TokenType, lexeme: string): Token {
    Token(kind, lexeme, 1)
  }

  // The tokens of a list in front of the tokens that follow it.
  function SpellNames(names: seq<string>, rest: seq<Token>): seq<Token>
    requires names != []
    decreases |names|
  {
    [Tok(Identifier, names[0])]
    + if |names| == 1 then rest else [Tok(Comma, ",")] + SpellNames(names[1..], rest)
  }

  function ValueToken(v: Value): Token
    requires ValueOk(v)
  {
    match v
    case Text(text) => Tok(VarcharLiteral, "'" + (text + "'"))
    case Integer(n) => Tok(IntLiteral, Decimal(n))
  }

  function SpellValues(values: seq<Value>, rest: seq<Token>): seq<Token>
    requires values != [] && forall v :: v in values ==> ValueOk(v)
    decreases |values|
  {
    [ValueToken(values[0])]
    + if |values| == 1 then rest else [Tok(Comma, ",")] + SpellValues(values[1..], rest)
  }

  // VARCHAR alone may be written for the default length.
  predicate ShortOk(d: ColumnDef, short: bool) {
    short ==> d.columnType.VarcharColumn? && d.length == 255
  }

  function SpellDef(d: ColumnDef, short: bool, rest: seq<Token>): seq<Token>
    requires DefOk(d)
  {
    [Tok(Identifier, d.name)]
    + if d.columnType.IntColumn? then [Tok(TypeInt, "INT")] + rest
      else if short then [Tok(TypeVarchar, "VARCHAR")] + rest
      else [Tok(TypeVarchar, "VARCHAR")]
           + ([Tok(OpenParen, "(")] + ([Tok(IntLiteral, Decimal(d.length))] + ([Tok(CloseParen, ")")] + rest)))
  }

  function SpellDefs(defs: seq<ColumnDef>, shorts: seq<bool>, rest: seq<Token>): seq<Token>
    requires defs != [] && |shorts| == |defs| && forall d :: d in defs ==> DefOk(d)
    decreases |defs|
  {
    SpellDef(defs[0], shorts[0],
             if |defs| == 1 then rest else [Tok(Comma, ",")] + SpellDefs(defs[1..], shorts[1..], rest))
  }

  function SpellSelect(columns: seq<string>, table: string, rest: seq<Token>): seq<Token>
    requires columns != []
  {
    var tail := [Tok(From, "FROM")] + ([Tok(Identifier, table)] + rest);
    [Tok(Select, "SELECT")] + if columns == ["*"] then [Tok(Star, "*")] + tail else SpellNames(columns, tail)
  }

  function SpellColumnList(columns: seq<string>, rest: seq<Token>): seq<Token> {
    if columns == [] then rest else [Tok(OpenParen, "(")] + SpellNames(columns, [Tok(CloseParen, ")")] + rest)
  }

  function SpellEnd(rest: seq<Token>): seq<Token> {
    [Tok(CloseParen, ")")] + ([Tok(EndOfLine, ";")] + rest)
  }

  function SpellInsert(table: string, columns: seq<string>, values: seq<Value>, rest: seq<Token>): seq<Token>
    requires values != [] && forall v :: v in values ==> ValueOk(v)
  {
    [Tok(Insert, "INSERT")] + ([Tok(Into, "INTO")] + ([Tok(Identifier, table)]
    + SpellColumnList(columns, [Tok(TokenType.Values, "VALUES")] + ([Tok(OpenParen, "(")]
                               + SpellValues(values, SpellEnd(rest))))))
  }

  function SpellCreate(table: string, defs: seq<ColumnDef>, shorts: seq<bool>, rest: seq<Token>): seq<Token>
    requires defs != [] && |shorts| == |defs| && forall d :: d in defs ==> DefOk(d)
  {
    [Tok(Create, "CREATE")] + ([Tok(Table, "TABLE")] + ([Tok(Identifier, table)] + ([Tok(OpenParen, "(")]
    + SpellDefs(defs, shorts, SpellEnd(rest)))))
  }

  function SpellBegin(rest: seq<Token>): seq<Token> {
    [Tok(Begin, "BEGIN")] + ([Tok(Transaction, "TRANSACTION")] + ([Tok(EndOfLine, ";")] + rest))
  }

  function SpellCommit(rest: seq<Token>): seq<Token> {
    [Tok(Commit, "COMMIT")] + ([Tok(EndOfLine, ";")] + rest)
  }

  // Every length written out.
  function AllLong(n: nat): seq<bool> {
    seq(n, _ => false)
  }

  // The normal spelling of a statement.
  ghost function Tokens(stmt: Statement): seq<Token>
    requires WellFormed(stmt)
  {
    match stmt
    case SelectStmt(columns, table) => SpellSelect(columns, table, [Tok(EndOfLine, ";")])
    case InsertStmt(table, columns, values) => SpellInsert(table, columns, values, [])
    case CreateStmt(table, defs) => SpellCreate(table, defs, AllLong(|defs|), [])
    case BeginStmt => SpellBegin([])
    case CommitStmt => SpellCommit([])
  }

  // The text of a statement: its tokens with one blank between any two.
  ghost function Print(stmt: Statement): string
    requires WellFormed(stmt)
  {
    Spell(Tokens(stmt))
  }

  // The whole front end.
  function ParseText(text: string): Option<Statement> {
    var r := Scan(text, 1);
    if r.ok then ParseTokens(r.tokens) else None
  }
}
