/**
 The front end as a whole: text to tokens to syntax tree. The parser does not look at line numbers, so its results
 carry over from the tokens a tree is written with to the tokens that the lexer finds in a text.
 */
module FrontEnd {
  import opened Options
  import opened Tokenizer
  import opened Layout
  import opened Grammar
  import opened Language

  // ---------- the parser does not look at line numbers ----------

  function Strip(ts: seq<Token>): seq<Token> {
    seq(|ts|, i requires 0 <= i < |ts| => Tok(ts[i].kind, ts[i].lexeme))
  }

  // The same outcome but for the line numbers of the tokens left.
  function Stripped<T>(r: Parsed<T>): Parsed<T> {
    Parsed(r.value, Strip(r.rest))
  }

  lemma StripTail(ts: seq<Token>)
    requires ts != []
    ensures Strip(ts)[1..] == Strip(ts[1..]) && Strip(ts)[0] == Tok(ts[0].kind, ts[0].lexeme)
  {
  }

  lemma ExpectStripped()
    ensures forall ts, kind :: At(Strip(ts), kind) <==> At(ts, kind)
    ensures forall ts, kind {:trigger Expect(Strip(ts), kind)} ::
      var r, s := Expect(ts, kind), Expect(Strip(ts), kind);
      s.rest == Strip(r.rest) && s.value.Some? == r.value.Some?
      && (r.value.Some? ==> s.value.value.lexeme == r.value.value.lexeme)
  {
    forall ts: seq<Token> | ts != [] ensures Strip(ts)[1..] == Strip(ts[1..]) {
      StripTail(ts);
    }
  }

  lemma TailStripped(ts: seq<Token>, kind: TokenType)
    requires At(ts, kind)
    ensures ts != [] && Strip(ts) != [] && Strip(ts)[1..] == Strip(ts[1..])
  {
    StripTail(ts);
  }

  lemma {:induction false} NamesStripped(ts: seq<Token>)
    ensures ParseNames(Strip(ts)) == Stripped(ParseNames(ts))
    decreases |ts|
  {
    hide Expect, At, Strip;
    ExpectStripped();
    var name := Expect(ts, Identifier);
    if name.value.Some? && At(name.rest, Comma) {
      TailStripped(name.rest, Comma);
      NamesStripped(name.rest[1..]);
    }
  }

  lemma ValueStripped(ts: seq<Token>)
    ensures ParseValue(Strip(ts)) == Stripped(ParseValue(ts))
  {
    if ts != [] {
      StripTail(ts);
    }
  }

  lemma {:induction false} ValuesStripped(ts: seq<Token>)
    ensures ParseValues(Strip(ts)) == Stripped(ParseValues(ts))
    decreases |ts|
  {
    hide ParseValue, At, Strip;
    ExpectStripped();
    ValueStripped(ts);
    var value := ParseValue(ts);
    if value.value.Some? && At(value.rest, Comma) {
      TailStripped(value.rest, Comma);
      ValuesStripped(value.rest[1..]);
    }
  }

  lemma LengthStripped(ts: seq<Token>)
    ensures ParseLength(Strip(ts)) == Stripped(ParseLength(ts))
  {
    hide Expect, At, Strip, Atoi;
    ExpectStripped();
    if At(ts, OpenParen) {
      TailStripped(ts, OpenParen);
    }
  }

  lemma {:induction false} DefStripped(ts: seq<Token>)
    ensures ParseDef(Strip(ts)) == Stripped(ParseDef(ts))
  {
    hide Expect, At, Strip, ParseLength;
    ExpectStripped();
    var rest := Expect(ts, Identifier).rest;
    if At(rest, TypeInt) {
      TailStripped(rest, TypeInt);
    } else if At(rest, TypeVarchar) {
      TailStripped(rest, TypeVarchar);
      LengthStripped(rest[1..]);
    }
  }

  lemma {:induction false} DefsStripped(ts: seq<Token>)
    ensures ParseDefs(Strip(ts)) == Stripped(ParseDefs(ts))
    decreases |ts|
  {
    hide ParseDef, At, Strip;
    ExpectStripped();
    DefStripped(ts);
    var def := ParseDef(ts);
    if def.value.Some? && At(def.rest, Comma) {
      TailStripped(def.rest, Comma);
      DefsStripped(def.rest[1..]);
    }
  }

  lemma {:induction false} SelectStripped(ts: seq<Token>)
    ensures ParseSelect(Strip(ts)) == Stripped(ParseSelect(ts))
  {
    hide Expect, At, Strip, ParseNames;
    ExpectStripped();
    var rest := Expect(ts, Select).rest;
    if At(rest, Star) {
      TailStripped(rest, Star);
    }
    NamesStripped(rest);
  }

  lemma ColumnListStripped(ts: seq<Token>)
    ensures ParseColumnList(Strip(ts)) == Stripped(ParseColumnList(ts))
  {
    hide Expect, At, Strip, ParseNames;
    ExpectStripped();
    if At(ts, OpenParen) {
      TailStripped(ts, OpenParen);
      NamesStripped(ts[1..]);
    }
  }

  lemma {:induction false} InsertStripped(ts: seq<Token>)
    ensures ParseInsert(Strip(ts)) == Stripped(ParseInsert(ts))
  {
    hide Expect, At, Strip, ParseColumnList, ParseValues;
    ExpectStripped();
    var table := Expect(Expect(Expect(ts, Insert).rest, Into).rest, Identifier);
    ColumnListStripped(table.rest);
    var columns := ParseColumnList(table.rest);
    ValuesStripped(Expect(Expect(columns.rest, TokenType.Values).rest, OpenParen).rest);
  }

  lemma {:induction false} CreateStripped(ts: seq<Token>)
    ensures ParseCreate(Strip(ts)) == Stripped(ParseCreate(ts))
  {
    hide Expect, At, Strip, ParseDefs;
    ExpectStripped();
    var table := Expect(Expect(Expect(ts, Create).rest, Table).rest, Identifier);
    DefsStripped(Expect(table.rest, OpenParen).rest);
  }

  lemma ControlStripped(ts: seq<Token>)
    ensures ParseBegin(Strip(ts)) == Stripped(ParseBegin(ts))
    ensures ParseCommit(Strip(ts)) == Stripped(ParseCommit(ts))
  {
    hide Expect, At, Strip;
    ExpectStripped();
  }

  lemma {:induction false} LinesDoNotMatter(ts: seq<Token>)
    ensures ParseTokens(Strip(ts)) == ParseTokens(ts)
  {
    hide Expect, At, Strip, ParseSelect, ParseInsert, ParseCreate, ParseBegin, ParseCommit;
    ExpectStripped();
    SelectStripped(ts);
    InsertStripped(ts);
    CreateStripped(ts);
    ControlStripped(ts);
  }

  lemma SameStripped(a: seq<Token>, b: seq<Token>)
    requires Same(a, b)
    ensures Strip(a) == Strip(b)
  {
  }

  // ---------- text to tree ----------

  // A statement written in any layout in which no token runs on into the next one is read back.
  lemma {:induction false} AnyLayoutIsRead(stmt: Statement, gaps: seq<string>)
    requires WellFormed(stmt) && |gaps| == |Tokens(stmt)| + 1 && AllBlank(gaps) && AllStand(gaps, Tokens(stmt))
    ensures ParseText(Weave(gaps, Tokens(stmt))) == Some(stmt)
  {
    hide *;
    var ts := Tokens(stmt);
    var found := Scan(Weave(gaps, ts), 1).tokens;
    TokensLexed(stmt);
    LexedQuotesLast(ts);
    WeaveScansExactly(gaps, ts, 1);
    SameStripped(ts, found);
    LinesDoNotMatter(ts);
    LinesDoNotMatter(found);
    TokensSpell(stmt);
    SpellingIsRead(stmt, ts);
    ParseTextIs(Weave(gaps, ts));
  }

  lemma ParseTextIs(text: string)
    ensures ParseText(text) == if Scan(text, 1).ok then ParseTokens(Scan(text, 1).tokens) else None
  {
  }

  // Printing, lexing and parsing gives every well-formed statement back.
  lemma {:induction false} PrintThenParse(stmt: Statement)
    requires WellFormed(stmt)
    ensures ParseText(Print(stmt)) == Some(stmt)
  {
    hide ParseText, WellFormed, Tokens, Spaced, AllStand, QuotesLast, AllLexed;
    var ts := Tokens(stmt);
    TokensLexed(stmt);
    LexedQuotesLast(ts);
    GapsAreSpaced(ts);
    SpacedStandsExactly(Gaps(|ts|), ts);
    assert AllBlank(Gaps(|ts|)) by { GapsAreBlank(|ts|); }
    AnyLayoutIsRead(stmt, Gaps(|ts|));
  }

  // Two statements with the same text are the same.
  lemma {:induction false} PrintIsInjective(a: Statement, b: Statement)
    requires WellFormed(a) && WellFormed(b) && Print(a) == Print(b)
    ensures a == b
  {
    hide Print, WellFormed;
    PrintThenParse(a);
    PrintThenParse(b);
  }

  lemma StrippedIsClean(text: string)
    ensures Clean(Strip(Scan(text, 1).tokens))
  {
    hide Classify, Scan;
    ScanGivesLexed(text, 1);
    var ts := Scan(text, 1).tokens;
    assert forall k :: 0 <= k < |ts| ==> ts[k] in ts;
  }

  // The texts that are accepted: those whose tokens spell a well-formed statement, which is then the result.
  lemma {:induction false} TextAcceptsExactly(text: string, stmt: Statement)
    ensures ParseText(text) == Some(stmt)
       <==> Scan(text, 1).ok && WellFormed(stmt) && Spells(stmt, Strip(Scan(text, 1).tokens))
  {
    hide Scan, ParseTokens, WellFormed, Spells, Strip, Clean;
    var ts := Scan(text, 1).tokens;
    StrippedIsClean(text);
    AcceptsExactly(Strip(ts), stmt);
    LinesDoNotMatter(ts);
  }

  // Whatever text a statement was read from, its printed text is read as the same statement.
  lemma {:induction false} ReprintedTextIsRead(text: string)
    ensures ParseText(text).Some? ==>
              WellFormed(ParseText(text).value) && ParseText(Print(ParseText(text).value)) == ParseText(text)
  {
    hide ParseText, WellFormed, Print, Spells, Scan;
    if ParseText(text).Some? {
      TextAcceptsExactly(text, ParseText(text).value);
      PrintThenParse(ParseText(text).value);
    }
  }

  // ---------- what is printed ----------

  function Lexemes(ts: seq<Token>): seq<string> {
    seq(|ts|, i requires 0 <= i < |ts| => ts[i].lexeme)
  }

  lemma TwoNames(a: string, b: string, rest: seq<Token>)
    ensures Lexemes(SpellNames([a, b], rest)) == [a, ",", b] + Lexemes(rest)
  {
    assert [a, b][1..] == [b];
  }

  lemma TwoValues(v: Value, w: Value, rest: seq<Token>)
    requires ValueOk(v) && ValueOk(w)
    ensures Lexemes(SpellValues([v, w], rest))
         == [ValueToken(v).lexeme, ",", ValueToken(w).lexeme] + Lexemes(rest)
  {
    hide ValueToken, ValueOk;
    assert [v, w][1..] == [w];
  }

  lemma TwoDefs(d: ColumnDef, e: ColumnDef, rest: seq<Token>)
    requires DefOk(d) && DefOk(e) && d.columnType.IntColumn? && e.columnType.VarcharColumn?
    ensures Lexemes(SpellDefs([d, e], AllLong(2), rest))
         == [d.name, "INT", ","] + ([e.name, "VARCHAR", "(", Decimal(e.length), ")"] + Lexemes(rest))
  {
    hide Decimal;
    assert [d, e][1..] == [e];
  }

  lemma PrintedControl()
    ensures Lexemes(Tokens(BeginStmt)) == ["BEGIN", "TRANSACTION", ";"]
    ensures Lexemes(Tokens(CommitStmt)) == ["COMMIT", ";"]
  {
  }

  lemma PrintedSelect(a: string, b: string, table: string)
    requires IsName(a) && IsName(b) && IsName(table) && a != "*"
    ensures Lexemes(Tokens(SelectStmt(["*"], table))) == ["SELECT", "*", "FROM", table, ";"]
    ensures Lexemes(Tokens(SelectStmt([a, b], table))) == ["SELECT"] + ([a, ",", b] + ["FROM", table, ";"])
  {
    hide IsName;
    TwoNames(a, b, [Tok(From, "FROM")] + ([Tok(Identifier, table)] + [Tok(EndOfLine, ";")]));
  }

  lemma PrintedInsert(a: string, b: string, table: string, v: Value, w: Value)
    requires IsName(a) && IsName(b) && IsName(table) && ValueOk(v) && ValueOk(w)
    ensures Lexemes(Tokens(InsertStmt(table, [a, b], [v, w])))
         == ["INSERT", "INTO", table, "("]
            + ([a, ",", b] + ([")", "VALUES", "("] + ([ValueToken(v).lexeme, ",", ValueToken(w).lexeme] + [")", ";"])))
  {
    hide IsName, ValueToken, ValueOk;
    var values := SpellValues([v, w], SpellEnd([]));
    TwoValues(v, w, SpellEnd([]));
    TwoNames(a, b, [Tok(CloseParen, ")")] + ([Tok(TokenType.Values, "VALUES")] + ([Tok(OpenParen, "(")] + values)));
  }

  lemma PrintedValue(n: nat, text: string)
    requires ValueOk(Text(text))
    ensures ValueToken(Integer(n)).lexeme == Decimal(n) && ValueToken(Text(text)).lexeme == "'" + (text + "'")
  {
  }

  lemma PrintedCreate(a: string, b: string, table: string, n: nat)
    requires IsName(a) && IsName(b) && IsName(table)
    ensures var defs := [ColumnDef(a, IntColumn, -1), ColumnDef(b, VarcharColumn, n)];
            Lexemes(Tokens(CreateStmt(table, defs)))
            == ["CREATE", "TABLE", table, "("]
               + ([a, "INT", ","] + ([b, "VARCHAR", "(", Decimal(n), ")"] + [")", ";"]))
  {
    hide IsName, Decimal;
    TwoDefs(ColumnDef(a, IntColumn, -1), ColumnDef(b, VarcharColumn, n), SpellEnd([]));
  }

  // ---------- exactly which layouts are read ----------

  // Where two lists part, the second one has a token that nothing can make longer.
  ghost predicate Parts(a: seq<Token>, b: seq<Token>, k: nat) {
    k < |a| && k < |b| && a[..k] == b[..k] && a[k] != b[k]
  }

  ghost predicate Agree(a: seq<Token>, b: seq<Token>) {
    forall k: nat :: Parts(a, b, k) ==> StandsAlways(b[k].lexeme)
  }

  lemma AgreeCons(t: Token, a: seq<Token>, b: seq<Token>)
    requires Agree(a, b)
    ensures Agree([t] + a, [t] + b)
  {
    var x, y := [t] + a, [t] + b;
    forall k: nat | Parts(x, y, k) ensures StandsAlways(y[k].lexeme) {
      if k > 0 {
        assert a[..k - 1] == x[..k][1..] && b[..k - 1] == y[..k][1..];
        assert Parts(a, b, k - 1);
      }
    }
  }

  // Lists that part at their first token.
  lemma AgreeFirst(a: seq<Token>, b: seq<Token>)
    requires a != [] && b != [] && a[0] != b[0] && StandsAlways(b[0].lexeme)
    ensures Agree(a, b)
  {
    assert forall k: nat :: 0 < k <= |a| && k <= |b| ==> a[..k][0] == a[0] && b[..k][0] == b[0];
  }

  lemma AgreeLast(a: seq<Token>, last: Token)
    requires StandsAlways(last.lexeme)
    ensures Agree(a, [last]) && Agree(a, [])
  {
  }

  lemma {:induction false} NamesAgree(names: seq<string>, a: seq<Token>, b: seq<Token>)
    requires names != [] && Agree(a, b)
    ensures Agree(SpellNames(names, a), SpellNames(names, b))
    decreases |names|
  {
    hide Agree;
    var t := Tok(Identifier, names[0]);
    if |names| == 1 {
      AgreeCons(t, a, b);
    } else {
      NamesAgree(names[1..], a, b);
      AgreeCons(Tok(Comma, ","), SpellNames(names[1..], a), SpellNames(names[1..], b));
      AgreeCons(t, [Tok(Comma, ",")] + SpellNames(names[1..], a), [Tok(Comma, ",")] + SpellNames(names[1..], b));
    }
  }

  lemma {:induction false} ValuesAgree(values: seq<Value>, a: seq<Token>, b: seq<Token>)
    requires values != [] && (forall v :: v in values ==> ValueOk(v)) && Agree(a, b)
    ensures Agree(SpellValues(values, a), SpellValues(values, b))
    decreases |values|
  {
    hide Agree, ValueOk, ValueToken;
    var t := ValueToken(values[0]);
    if |values| == 1 {
      AgreeCons(t, a, b);
    } else {
      ValuesAgree(values[1..], a, b);
      AgreeCons(Tok(Comma, ","), SpellValues(values[1..], a), SpellValues(values[1..], b));
      AgreeCons(t, [Tok(Comma, ",")] + SpellValues(values[1..], a), [Tok(Comma, ",")] + SpellValues(values[1..], b));
    }
  }

  // A bare VARCHAR parts from VARCHAR(n) at the parenthesis.
  lemma DefAgrees(d: ColumnDef, short: bool, a: seq<Token>, b: seq<Token>)
    requires DefOk(d) && ShortOk(d, short) && Agree(a, b) && a != [] && a[0].kind != OpenParen
    ensures Agree(SpellDef(d, short, a), SpellDef(d, false, b))
  {
    hide Agree, Decimal;
    var t := Tok(Identifier, d.name);
    if d.columnType.IntColumn? {
      AgreeCons(Tok(TypeInt, "INT"), a, b);
      AgreeCons(t, [Tok(TypeInt, "INT")] + a, [Tok(TypeInt, "INT")] + b);
    } else {
      var varchar, open, n, close
        := Tok(TypeVarchar, "VARCHAR"), Tok(OpenParen, "("), Tok(IntLiteral, Decimal(d.length)), Tok(CloseParen, ")");
      var a1, b1 := [n] + ([close] + a), [n] + ([close] + b);
      if short {
        assert StandsAlways("(");
        AgreeFirst(a, [open] + b1);
        AgreeCons(varchar, a, [open] + b1);
        AgreeCons(t, [varchar] + a, [varchar] + ([open] + b1));
      } else {
        AgreeCons(close, a, b);
        AgreeCons(n, [close] + a, [close] + b);
        AgreeCons(open, a1, b1);
        AgreeCons(varchar, [open] + a1, [open] + b1);
        AgreeCons(t, [varchar] + ([open] + a1), [varchar] + ([open] + b1));
      }
    }
  }

  lemma {:induction false} DefsAgree(defs: seq<ColumnDef>, shorts: seq<bool>, a: seq<Token>, b: seq<Token>)
    requires defs != [] && |shorts| == |defs| && (forall d :: d in defs ==> DefOk(d))
    requires forall k :: 0 <= k < |defs| ==> ShortOk(defs[k], shorts[k])
    requires Agree(a, b) && a != [] && a[0].kind != OpenParen
    ensures Agree(SpellDefs(defs, shorts, a), SpellDefs(defs, AllLong(|defs|), b))
    decreases |defs|
  {
    hide Agree, DefOk, SpellDef, ShortOk;
    if |defs| == 1 {
      DefAgrees(defs[0], shorts[0], a, b);
    } else {
      assert AllLong(|defs|)[1..] == AllLong(|defs[1..]|);
      var more, long := SpellDefs(defs[1..], shorts[1..], a), SpellDefs(defs[1..], AllLong(|defs[1..]|), b);
      DefsAgree(defs[1..], shorts[1..], a, b);
      AgreeCons(Tok(Comma, ","), more, long);
      DefAgrees(defs[0], shorts[0], [Tok(Comma, ",")] + more, [Tok(Comma, ",")] + long);
    }
  }

  lemma SelectAgrees(columns: seq<string>, table: string, tail: seq<Token>)
    requires columns != []
    ensures Agree(SpellSelect(columns, table, tail), SpellSelect(columns, table, [Tok(EndOfLine, ";")]))
  {
    hide Agree;
    var end := [Tok(EndOfLine, ";")];
    assert StandsAlways(";");
    AgreeLast(tail, Tok(EndOfLine, ";"));
    var a1, b1 := [Tok(Identifier, table)] + tail, [Tok(Identifier, table)] + end;
    AgreeCons(Tok(Identifier, table), tail, end);
    var a2, b2 := [Tok(From, "FROM")] + a1, [Tok(From, "FROM")] + b1;
    AgreeCons(Tok(From, "FROM"), a1, b1);
    if columns == ["*"] {
      AgreeCons(Tok(Star, "*"), a2, b2);
      AgreeCons(Tok(Select, "SELECT"), [Tok(Star, "*")] + a2, [Tok(Star, "*")] + b2);
    } else {
      NamesAgree(columns, a2, b2);
      AgreeCons(Tok(Select, "SELECT"), SpellNames(columns, a2), SpellNames(columns, b2));
    }
  }

  lemma EndAgrees(rest: seq<Token>)
    ensures Agree(SpellEnd(rest), SpellEnd([])) && SpellEnd(rest) != [] && SpellEnd(rest)[0].kind == CloseParen
  {
    hide Agree;
    assert StandsAlways(";");
    AgreeLast(rest, Tok(EndOfLine, ";"));
    AgreeCons(Tok(EndOfLine, ";"), rest, []);
    AgreeCons(Tok(CloseParen, ")"), [Tok(EndOfLine, ";")] + rest, [Tok(EndOfLine, ";")] + []);
  }

  lemma ColumnListAgrees(columns: seq<string>, a: seq<Token>, b: seq<Token>)
    requires Agree(a, b)
    ensures Agree(SpellColumnList(columns, a), SpellColumnList(columns, b))
  {
    hide Agree;
    if columns != [] {
      AgreeCons(Tok(CloseParen, ")"), a, b);
      NamesAgree(columns, [Tok(CloseParen, ")")] + a, [Tok(CloseParen, ")")] + b);
      AgreeCons(Tok(OpenParen, "("), SpellNames(columns, [Tok(CloseParen, ")")] + a),
                SpellNames(columns, [Tok(CloseParen, ")")] + b));
    }
  }

  lemma InsertAgrees(table: string, columns: seq<string>, values: seq<Value>, rest: seq<Token>)
    requires values != [] && forall v :: v in values ==> ValueOk(v)
    ensures Agree(SpellInsert(table, columns, values, rest), SpellInsert(table, columns, values, []))
  {
    hide Agree, ValueOk, SpellEnd, SpellColumnList;
    EndAgrees(rest);
    ValuesAgree(values, SpellEnd(rest), SpellEnd([]));
    var a1, b1 := SpellValues(values, SpellEnd(rest)), SpellValues(values, SpellEnd([]));
    AgreeCons(Tok(OpenParen, "("), a1, b1);
    var a2, b2 := [Tok(OpenParen, "(")] + a1, [Tok(OpenParen, "(")] + b1;
    AgreeCons(Tok(TokenType.Values, "VALUES"), a2, b2);
    ColumnListAgrees(columns, [Tok(TokenType.Values, "VALUES")] + a2, [Tok(TokenType.Values, "VALUES")] + b2);
    var a3 := SpellColumnList(columns, [Tok(TokenType.Values, "VALUES")] + a2);
    var b3 := SpellColumnList(columns, [Tok(TokenType.Values, "VALUES")] + b2);
    AgreeCons(Tok(Identifier, table), a3, b3);
    AgreeCons(Tok(Into, "INTO"), [Tok(Identifier, table)] + a3, [Tok(Identifier, table)] + b3);
    AgreeCons(Tok(Insert, "INSERT"), [Tok(Into, "INTO")] + ([Tok(Identifier, table)] + a3),
              [Tok(Into, "INTO")] + ([Tok(Identifier, table)] + b3));
  }

  lemma CreateAgrees(table: string, defs: seq<ColumnDef>, shorts: seq<bool>, rest: seq<Token>)
    requires defs != [] && |shorts| == |defs| && (forall d :: d in defs ==> DefOk(d))
    requires forall k :: 0 <= k < |defs| ==> ShortOk(defs[k], shorts[k])
    ensures Agree(SpellCreate(table, defs, shorts, rest), SpellCreate(table, defs, AllLong(|defs|), []))
  {
    hide Agree, DefOk, ShortOk, SpellEnd;
    EndAgrees(rest);
    DefsAgree(defs, shorts, SpellEnd(rest), SpellEnd([]));
    var a, b := SpellDefs(defs, shorts, SpellEnd(rest)), SpellDefs(defs, AllLong(|defs|), SpellEnd([]));
    AgreeCons(Tok(OpenParen, "("), a, b);
    var a1, b1 := [Tok(OpenParen, "(")] + a, [Tok(OpenParen, "(")] + b;
    AgreeCons(Tok(Identifier, table), a1, b1);
    AgreeCons(Tok(Table, "TABLE"), [Tok(Identifier, table)] + a1, [Tok(Identifier, table)] + b1);
    AgreeCons(Tok(Create, "CREATE"), [Tok(Table, "TABLE")] + ([Tok(Identifier, table)] + a1),
              [Tok(Table, "TABLE")] + ([Tok(Identifier, table)] + b1));
  }

  lemma ControlAgrees(rest: seq<Token>)
    ensures Agree(SpellBegin(rest), SpellBegin([])) && Agree(SpellCommit(rest), SpellCommit([]))
  {
    hide Agree;
    assert StandsAlways(";");
    AgreeLast(rest, Tok(EndOfLine, ";"));
    var end := Tok(EndOfLine, ";");
    AgreeCons(end, rest, []);
    AgreeCons(Tok(Commit, "COMMIT"), [end] + rest, [end] + []);
    AgreeCons(Tok(Transaction, "TRANSACTION"), [end] + rest, [end] + []);
    AgreeCons(Tok(Begin, "BEGIN"), [Tok(Transaction, "TRANSACTION")] + ([end] + rest),
              [Tok(Transaction, "TRANSACTION")] + ([end] + []));
  }

  lemma AgreeAt(a: seq<Token>, b: seq<Token>, k: nat)
    requires Agree(a, b) && Parts(a, b, k)
    ensures k < |b| && StandsAlways(b[k].lexeme)
  {
  }

  // Every spelling of a statement agrees with the normal one.
  lemma SpellingAgrees(stmt: Statement, ts: seq<Token>)
    requires WellFormed(stmt) && Spells(stmt, ts)
    ensures Agree(ts, Tokens(stmt))
  {
    hide Agree, IsName, DefOk, ValueOk, ShortOk;
    match stmt
    case SelectStmt(columns, table) =>
      var tail :| ts == SpellSelect(columns, table, tail);
      SelectAgrees(columns, table, tail);
    case InsertStmt(table, columns, values) =>
      var rest :| ts == SpellInsert(table, columns, values, rest);
      InsertAgrees(table, columns, values, rest);
    case CreateStmt(table, defs) =>
      var shorts: seq<bool>, rest :|
        |shorts| == |defs| && (forall k :: 0 <= k < |shorts| ==> ShortOk(defs[k], shorts[k]))
        && ts == SpellCreate(table, defs, shorts, rest);
      CreateAgrees(table, defs, shorts, rest);
    case BeginStmt =>
      var rest :| ts == SpellBegin(rest);
      ControlAgrees(rest);
    case CommitStmt =>
      var rest :| ts == SpellCommit(rest);
      ControlAgrees(rest);
  }

  lemma RunsOnParts(ts: seq<Token>, found: seq<Token>, k: nat)
    requires RunsOn(ts, found, k) && AllLexed(ts)
    ensures k < |ts| && Parts(Strip(found), ts, k) && !StandsAlways(ts[k].lexeme)
  {
    forall i | 0 <= i < k ensures Strip(found)[i] == ts[i] {
      assert ts[i] == ts[..k][i] && found[i] == found[..k][i] && Lexed(ts[i]);
    }
    assert Strip(found)[..k] == ts[..k];
  }

  // A statement written in any layout is read back exactly when no token runs on into what follows it.
  lemma {:induction false} LayoutIsReadExactly(stmt: Statement, gaps: seq<string>)
    requires WellFormed(stmt) && |gaps| == |Tokens(stmt)| + 1 && AllBlank(gaps)
    ensures ParseText(Weave(gaps, Tokens(stmt))) == Some(stmt) <==> AllStand(gaps, Tokens(stmt))
  {
    hide *;
    var ts := Tokens(stmt);
    TokensLexed(stmt);
    LexedQuotesLast(ts);
    if AllStand(gaps, ts) {
      AnyLayoutIsRead(stmt, gaps);
    } else if ParseText(Weave(gaps, ts)) == Some(stmt) {
      var text := Weave(gaps, ts);
      var k := FirstRunsOn(gaps, ts, 1);
      TextAcceptsExactly(text, stmt);
      SpellingAgrees(stmt, Strip(Scan(text, 1).tokens));
      RunsOnParts(ts, Scan(text, 1).tokens, k);
      AgreeAt(Strip(Scan(text, 1).tokens), ts, k);
    }
  }
}
