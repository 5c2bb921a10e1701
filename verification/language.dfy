/**
 The language of the parser. `Spells` says which token lists spell a statement: the tokens that the statement
 is written with, except that a bare VARCHAR stands for VARCHAR(255) and that anything may stand in place of the
 semicolon of a SELECT. Whatever follows a statement is not looked at. On the output of the lexer the parser
 returns a statement exactly when the list spells it (`AcceptsExactly`), and printing, lexing and parsing
 gives every well-formed statement back (`PrintThenParse`).
 */
module Language {
  import opened Options
  import opened Tokenizer
  import opened Layout
  import opened Grammar

  // ---------- numbers ----------

  lemma {:induction false} AtoiDecimal(n: nat)
    ensures Atoi(Decimal(n)) == n
  {
    var s := Decimal(n);
    if n < 10 {
      assert s[..0] == "";
    } else {
      AtoiDecimal(n / 10);
      assert s[..|s| - 1] == Decimal(n / 10);
    }
  }

  lemma {:induction false} DecimalIsInteger(n: nat)
    ensures IsInteger(Decimal(n)) && (n > 0 ==> Decimal(n)[0] != '0')
  {
    var s := Decimal(n);
    if n >= 10 {
      DecimalIsInteger(n / 10);
      assert forall i :: 1 <= i < |s| ==> IsDigit(s[i]);
    }
  }

  lemma DigitCharValue(c: char)
    requires IsDigit(c)
    ensures DigitValue(c) < 10 && DigitChar(DigitValue(c)) == c
  {
  }

  lemma DecimalStep(a: nat, d: nat)
    requires a > 0 && d < 10
    ensures Decimal(10 * a + d) == Decimal(a) + [DigitChar(d)]
  {
    assert (10 * a + d) / 10 == a && (10 * a + d) % 10 == d;
  }

  lemma IntegerHead(s: string)
    requires IsInteger(s) && |s| > 1
    ensures IsInteger(s[..|s| - 1]) && s[..|s| - 1][0] == s[0] != '0' && IsDigit(s[|s| - 1])
  {
  }

  lemma OneDigit(s: string)
    requires IsInteger(s) && |s| == 1
    ensures Decimal(Atoi(s)) == s && (s[0] != '0' ==> Atoi(s) > 0)
  {
    assert s[..0] == "" && s == [s[0]];
    DigitCharValue(s[0]);
  }

  // A number without leading zeros is written back as it was read.
  lemma {:induction false} DecimalAtoi(s: string)
    requires IsInteger(s)
    ensures Decimal(Atoi(s)) == s && (s[0] != '0' ==> Atoi(s) > 0)
    decreases |s|
  {
    if |s| == 1 {
      OneDigit(s);
    } else {
      var head, last := s[..|s| - 1], s[|s| - 1];
      IntegerHead(s);
      hide IsInteger, Decimal;
      DecimalAtoi(head);
      DigitCharValue(last);
      DecimalStep(Atoi(head), DigitValue(last));
      assert s == head + [last];
    }
  }

  lemma AtoiStep(s: string)
    requires s != ""
    ensures Atoi(s) == 10 * Atoi(s[..|s| - 1]) + DigitValue(s[|s| - 1]) && DigitValue(s[|s| - 1]) < 10
  {
  }

  // Of two strings of the same length the first digit in which they differ decides.
  lemma {:induction false} FirstDigitDecides(s: string, t: string, k: nat)
    requires |s| == |t| && k < |s| && s[..k] == t[..k] && s[k] < t[k] && (forall c :: c in s + t ==> IsDigit(c))
    ensures Atoi(s) < Atoi(t)
    decreases |s|
  {
    var n := |s| - 1;
    assert forall i :: 0 <= i <= n ==> (s + t)[i] == s[i] && (s + t)[n + 1 + i] == t[i];
    AtoiStep(s);
    AtoiStep(t);
    if k == n {
      assert IsDigit(s[n]) && IsDigit(t[n]);
    } else {
      assert s[..n][..k] == s[..k] && t[..n][..k] == t[..k];
      forall c | c in s[..n] + t[..n] ensures IsDigit(c) {
        assert c in s + t;
      }
      FirstDigitDecides(s[..n], t[..n], k);
    }
  }

  // Of two numerals of different length the longer is the greater.
  lemma {:induction false} LongerIsGreater(s: string, t: string)
    requires IsInteger(s) && IsInteger(t) && |s| < |t|
    ensures Atoi(s) < Atoi(t)
    decreases |s|
  {
    IntegerHead(t);
    AtoiStep(s);
    AtoiStep(t);
    if |s| == 1 {
      DecimalAtoi(t[..|t| - 1]);
      assert Atoi(s[..0]) == 0;
    } else {
      IntegerHead(s);
      LongerIsGreater(s[..|s| - 1], t[..|t| - 1]);
    }
  }

  // The order of the numbers is that of the numerals: first by length, then by the first digit that differs.
  lemma AtoiOrder(s: string, t: string, k: nat)
    requires IsInteger(s) && IsInteger(t)
    ensures |s| < |t| ==> Atoi(s) < Atoi(t)
    ensures |s| == |t| && k < |s| && s[..k] == t[..k] && s[k] != t[k] ==> (Atoi(s) < Atoi(t) <==> s[k] < t[k])
  {
    hide Atoi;
    if |s| < |t| {
      LongerIsGreater(s, t);
    } else if |s| == |t| && k < |s| && s[..k] == t[..k] && s[k] != t[k] {
      DigitsOnly(s);
      DigitsOnly(t);
      if s[k] < t[k] {
        FirstDigitDecides(s, t, k);
      } else {
        FirstDigitDecides(t, s, k);
      }
    }
  }

  lemma DigitsOnly(s: string)
    requires IsInteger(s)
    ensures forall c :: c in s ==> IsDigit(c)
  {
  }

  // ---------- what the class of a lexeme says about it ----------

  // The one lexeme of a class that has only one.
  function Fixed(kind: TokenType): Option<string> {
    match kind
    case Select => Some("SELECT")
    case From => Some("FROM")
    case Insert => Some("INSERT")
    case Into => Some("INTO")
    case Values => Some("VALUES")
    case Create => Some("CREATE")
    case Table => Some("TABLE")
    case Begin => Some("BEGIN")
    case Commit => Some("COMMIT")
    case Transaction => Some("TRANSACTION")
    case TypeVarchar => Some("VARCHAR")
    case TypeInt => Some("INT")
    case EndOfLine => Some(";")
    case Comma => Some(",")
    case OpenParen => Some("(")
    case CloseParen => Some(")")
    case Quote => Some("'")
    case Star => Some("*")
    case Identifier => None
    case VarcharLiteral => None
    case IntLiteral => None
  }

  lemma FixedLexeme(s: string, kind: TokenType)
    requires Classify(s) == Some(kind) && Fixed(kind).Some?
    ensures s == Fixed(kind).value
  {
    if |s| == 1 {
      assert s == [s[0]];
    }
  }

  lemma SymbolClass(kind: TokenType)
    requires Fixed(kind).Some? && |Fixed(kind).value| == 1
    ensures Classify(Fixed(kind).value) == Some(kind)
  {
  }

  lemma WordClass(kind: TokenType)
    requires Fixed(kind).Some? && |Fixed(kind).value| > 1
    ensures Classify(Fixed(kind).value) == Some(kind)
  {
  }

  lemma FixedClass(kind: TokenType)
    requires Fixed(kind).Some?
    ensures Classify(Fixed(kind).value) == Some(kind)
  {
    hide Classify;
    assert |Fixed(kind).value| > 0;
    if |Fixed(kind).value| == 1 {
      SymbolClass(kind);
    } else {
      WordClass(kind);
    }
  }

  lemma IntegerClass(s: string)
    ensures Classify(s) == Some(IntLiteral) <==> IsInteger(s)
  {
    if Keyword(s).Some? || TypeName(s).Some? {
      KeywordIsIdentifier(s);
    }
  }

  lemma VarcharClass(s: string)
    ensures Classify(s) == Some(VarcharLiteral) <==> IsVarchar(s)
  {
    if Keyword(s).Some? || TypeName(s).Some? {
      KeywordIsIdentifier(s);
    }
  }

  lemma BodyEndsWithQuote(s: string)
    requires IsBody(s)
    ensures s != "" && s[|s| - 1] == '\''
    decreases |s|
  {
    if s[0] != '\'' {
      BodyEndsWithQuote(s[1..]);
    } else if |s| > 1 {
      BodyEndsWithQuote(s[2..]);
    }
  }

  // A text literal is its text in quotes.
  lemma QuoteUnquote(s: string)
    requires IsVarchar(s)
    ensures |s| >= 2 && s == "'" + (Unquote(s) + "'") && IsBody(Unquote(s) + "'")
  {
    BodyEndsWithQuote(s[1..]);
    assert s[1..] == Unquote(s) + "'";
  }

  lemma UnquoteQuote(text: string)
    ensures Unquote("'" + (text + "'")) == text
  {
  }

  // ---------- the written tokens can be lexed ----------

  // A token as the lexer can find it in the first line, other than a lone quote.
  predicate Lexed(t: Token) {
    Classified(t) && t.kind != Quote && t.line == 1
  }

  ghost predicate AllLexed(tokens: seq<Token>) {
    forall k :: 0 <= k < |tokens| ==> Lexed(tokens[k])
  }

  lemma {:induction false} LexedQuotesLast(tokens: seq<Token>)
    requires AllLexed(tokens)
    ensures AllClassified(tokens) && QuotesLast(tokens)
    decreases |tokens|
  {
    if tokens != [] {
      assert Lexed(tokens[0]);
      FixedClass(Quote);
      LexedQuotesLast(tokens[1..]);
    }
  }

  lemma FixedLexed(kind: TokenType)
    requires Fixed(kind).Some? && kind != Quote
    ensures Lexed(Tok(kind, Fixed(kind).value))
  {
    FixedClass(kind);
  }

  lemma ValueLexed(v: Value)
    requires ValueOk(v)
    ensures Lexed(ValueToken(v))
  {
    match v
    case Text(text) =>
      var s := "'" + (text + "'");
      assert s[1..] == text + "'";
      VarcharClass(s);
    case Integer(n) =>
      DecimalIsInteger(n);
      IntegerClass(Decimal(n));
  }

  lemma LexedInFront(t: Token, rest: seq<Token>)
    requires Lexed(t) && AllLexed(rest)
    ensures AllLexed([t] + rest)
  {
  }

  lemma {:induction false} NamesLexed(names: seq<string>, rest: seq<Token>)
    requires names != [] && (forall c :: c in names ==> IsName(c)) && AllLexed(rest)
    ensures AllLexed(SpellNames(names, rest))
    decreases |names|
  {
    FixedLexed(Comma);
    assert IsName(names[0]);
    if |names| > 1 {
      NamesLexed(names[1..], rest);
      LexedInFront(Tok(Comma, ","), SpellNames(names[1..], rest));
      LexedInFront(Tok(Identifier, names[0]), [Tok(Comma, ",")] + SpellNames(names[1..], rest));
    } else {
      LexedInFront(Tok(Identifier, names[0]), rest);
    }
  }

  lemma {:induction false} ValuesLexed(values: seq<Value>, rest: seq<Token>)
    requires values != [] && (forall v :: v in values ==> ValueOk(v)) && AllLexed(rest)
    ensures AllLexed(SpellValues(values, rest))
    decreases |values|
  {
    FixedLexed(Comma);
    ValueLexed(values[0]);
    if |values| > 1 {
      ValuesLexed(values[1..], rest);
      LexedInFront(Tok(Comma, ","), SpellValues(values[1..], rest));
      LexedInFront(ValueToken(values[0]), [Tok(Comma, ",")] + SpellValues(values[1..], rest));
    } else {
      LexedInFront(ValueToken(values[0]), rest);
    }
  }

  lemma DefLexed(d: ColumnDef, short: bool, rest: seq<Token>)
    requires DefOk(d) && AllLexed(rest)
    ensures AllLexed(SpellDef(d, short, rest))
  {
    hide Lexed;
    FixedLexed(TypeInt);
    FixedLexed(TypeVarchar);
    FixedLexed(OpenParen);
    FixedLexed(CloseParen);
    NameLexed(d.name);
    if d.columnType.VarcharColumn? {
      LengthLexed(d.length);
    }
  }

  lemma NameLexed(name: string)
    requires IsName(name)
    ensures Lexed(Tok(Identifier, name))
  {
  }

  lemma LengthLexed(n: nat)
    ensures Lexed(Tok(IntLiteral, Decimal(n)))
  {
    DecimalIsInteger(n);
    IntegerClass(Decimal(n));
  }

  lemma {:induction false} DefsLexed(defs: seq<ColumnDef>, shorts: seq<bool>, rest: seq<Token>)
    requires defs != [] && |shorts| == |defs| && (forall d :: d in defs ==> DefOk(d)) && AllLexed(rest)
    ensures AllLexed(SpellDefs(defs, shorts, rest))
    decreases |defs|
  {
    FixedLexed(Comma);
    if |defs| > 1 {
      DefsLexed(defs[1..], shorts[1..], rest);
      LexedInFront(Tok(Comma, ","), SpellDefs(defs[1..], shorts[1..], rest));
      DefLexed(defs[0], shorts[0], [Tok(Comma, ",")] + SpellDefs(defs[1..], shorts[1..], rest));
    } else {
      DefLexed(defs[0], shorts[0], rest);
    }
  }

  lemma EndLexed()
    ensures AllLexed(SpellEnd([]))
  {
    FixedLexed(CloseParen);
    FixedLexed(EndOfLine);
  }

  lemma SelectLexed(columns: seq<string>, table: string)
    requires WellFormed(SelectStmt(columns, table))
    ensures AllLexed(Tokens(SelectStmt(columns, table)))
  {
    FixedLexed(Select);
    FixedLexed(From);
    FixedLexed(Star);
    FixedLexed(EndOfLine);
    var tail := [Tok(From, "FROM")] + ([Tok(Identifier, table)] + [Tok(EndOfLine, ";")]);
    if columns != ["*"] {
      NamesLexed(columns, tail);
      LexedInFront(Tok(Select, "SELECT"), SpellNames(columns, tail));
    }
  }

  lemma InsertLexed(table: string, columns: seq<string>, values: seq<Value>)
    requires WellFormed(InsertStmt(table, columns, values))
    ensures AllLexed(Tokens(InsertStmt(table, columns, values)))
  {
    hide Lexed;
    FixedLexed(Insert);
    FixedLexed(Into);
    FixedLexed(TokenType.Values);
    FixedLexed(OpenParen);
    FixedLexed(CloseParen);
    NameLexed(table);
    EndLexed();
    ValuesLexed(values, SpellEnd([]));
    var tail := [Tok(TokenType.Values, "VALUES")] + ([Tok(OpenParen, "(")] + SpellValues(values, SpellEnd([])));
    assert AllLexed(tail);
    if columns != [] {
      NamesLexed(columns, [Tok(CloseParen, ")")] + tail);
      LexedInFront(Tok(OpenParen, "("), SpellNames(columns, [Tok(CloseParen, ")")] + tail));
    }
    assert AllLexed(SpellColumnList(columns, tail));
  }

  lemma CreateLexed(table: string, defs: seq<ColumnDef>)
    requires WellFormed(CreateStmt(table, defs))
    ensures AllLexed(Tokens(CreateStmt(table, defs)))
  {
    hide Lexed;
    FixedLexed(Create);
    FixedLexed(Table);
    FixedLexed(OpenParen);
    NameLexed(table);
    EndLexed();
    DefsLexed(defs, AllLong(|defs|), SpellEnd([]));
  }

  lemma TokensLexed(stmt: Statement)
    requires WellFormed(stmt)
    ensures AllLexed(Tokens(stmt))
  {
    match stmt
    case SelectStmt(columns, table) => SelectLexed(columns, table);
    case InsertStmt(table, columns, values) => InsertLexed(table, columns, values);
    case CreateStmt(table, defs) => CreateLexed(table, defs);
    case BeginStmt =>
      FixedLexed(Begin);
      FixedLexed(Transaction);
      FixedLexed(EndOfLine);
    case CommitStmt =>
      FixedLexed(Commit);
      FixedLexed(EndOfLine);
  }

  // ---------- what is spelled is read ----------

  lemma ExpectHit(t: Token, rest: seq<Token>)
    ensures Expect([t] + rest, t.kind) == Parsed(Some(t), rest)
    ensures ([t] + rest)[1..] == rest
  {
  }

  lemma LastNameRead(name: string, rest: seq<Token>)
    requires !At(rest, Comma)
    ensures ParseNames([Tok(Identifier, name)] + rest) == Parsed(Some([name]), rest)
  {
    ExpectHit(Tok(Identifier, name), rest);
  }

  lemma NextNameRead(name: string, rest: seq<Token>)
    ensures ParseNames([Tok(Identifier, name)] + ([Tok(Comma, ",")] + rest))
         == Parsed(if ParseNames(rest).value.None? then None else Some([name] + ParseNames(rest).value.value),
                   ParseNames(rest).rest)
  {
    ExpectHit(Tok(Identifier, name), [Tok(Comma, ",")] + rest);
    ExpectHit(Tok(Comma, ","), rest);
    hide Expect;
  }

  lemma {:induction false} NamesRead(names: seq<string>, rest: seq<Token>)
    requires names != [] && !At(rest, Comma)
    ensures ParseNames(SpellNames(names, rest)) == Parsed(Some(names), rest)
    decreases |names|
  {
    hide ParseNames, At;
    if |names| == 1 {
      LastNameRead(names[0], rest);
      assert names == [names[0]];
    } else {
      NextNameRead(names[0], SpellNames(names[1..], rest));
      NamesRead(names[1..], rest);
      assert names == [names[0]] + names[1..];
    }
  }

  lemma ValueRead(v: Value, rest: seq<Token>)
    requires ValueOk(v)
    ensures ParseValue([ValueToken(v)] + rest) == Parsed(Some(v), rest)
  {
    match v
    case Text(text) => UnquoteQuote(text);
    case Integer(n) => AtoiDecimal(n);
  }

  lemma {:induction false} ValuesRead(values: seq<Value>, rest: seq<Token>)
    requires values != [] && (forall v :: v in values ==> ValueOk(v)) && !At(rest, Comma)
    ensures ParseValues(SpellValues(values, rest)) == Parsed(Some(values), rest)
    decreases |values|
  {
    hide ValueToken, ParseValue, ValueOk;
    if |values| == 1 {
      ValueRead(values[0], rest);
      assert values == [values[0]];
    } else {
      var more := SpellValues(values[1..], rest);
      ValueRead(values[0], [Tok(Comma, ",")] + more);
      ExpectHit(Tok(Comma, ","), more);
      ValuesRead(values[1..], rest);
      assert values == [values[0]] + values[1..];
    }
  }

  lemma LengthRead(n: nat, rest: seq<Token>)
    ensures ParseLength([Tok(OpenParen, "(")] + ([Tok(IntLiteral, Decimal(n))] + ([Tok(CloseParen, ")")] + rest)))
         == Parsed(Some(n), rest)
  {
    hide Expect, Atoi, Decimal;
    var r1 := [Tok(CloseParen, ")")] + rest;
    var r2 := [Tok(IntLiteral, Decimal(n))] + r1;
    ExpectHit(Tok(OpenParen, "("), r2);
    ExpectHit(Tok(IntLiteral, Decimal(n)), r1);
    ExpectHit(Tok(CloseParen, ")"), rest);
    AtoiDecimal(n);
  }

  lemma {:induction false} DefRead(d: ColumnDef, short: bool, rest: seq<Token>)
    requires DefOk(d) && ShortOk(d, short) && !At(rest, OpenParen)
    ensures ParseDef(SpellDef(d, short, rest)) == Parsed(Some(d), rest)
  {
    hide Expect, ParseLength, Decimal;
    var t := Tok(Identifier, d.name);
    if d.columnType.IntColumn? {
      ExpectHit(t, [Tok(TypeInt, "INT")] + rest);
      ExpectHit(Tok(TypeInt, "INT"), rest);
    } else if short {
      ExpectHit(t, [Tok(TypeVarchar, "VARCHAR")] + rest);
      ExpectHit(Tok(TypeVarchar, "VARCHAR"), rest);
      LengthDefault(rest);
    } else {
      var r := [Tok(OpenParen, "(")] + ([Tok(IntLiteral, Decimal(d.length))] + ([Tok(CloseParen, ")")] + rest));
      ExpectHit(t, [Tok(TypeVarchar, "VARCHAR")] + r);
      ExpectHit(Tok(TypeVarchar, "VARCHAR"), r);
      LengthRead(d.length, rest);
    }
  }

  lemma LengthDefault(rest: seq<Token>)
    requires !At(rest, OpenParen)
    ensures ParseLength(rest) == Parsed(Some(DEFAULT_VARCHAR_LENGTH), rest)
  {
  }

  lemma {:induction false} DefsRead(defs: seq<ColumnDef>, shorts: seq<bool>, rest: seq<Token>)
    requires defs != [] && |shorts| == |defs| && (forall d :: d in defs ==> DefOk(d))
    requires forall k :: 0 <= k < |defs| ==> ShortOk(defs[k], shorts[k])
    requires !At(rest, Comma) && !At(rest, OpenParen)
    ensures ParseDefs(SpellDefs(defs, shorts, rest)) == Parsed(Some(defs), rest)
    decreases |defs|
  {
    hide SpellDef, ParseDef, DefOk;
    if |defs| == 1 {
      DefRead(defs[0], shorts[0], rest);
      assert defs == [defs[0]];
    } else {
      var more := SpellDefs(defs[1..], shorts[1..], rest);
      DefRead(defs[0], shorts[0], [Tok(Comma, ",")] + more);
      ExpectHit(Tok(Comma, ","), more);
      DefsRead(defs[1..], shorts[1..], rest);
      assert defs == [defs[0]] + defs[1..];
    }
  }

  lemma SelectRead(columns: seq<string>, table: string, rest: seq<Token>)
    requires columns != []
    ensures ParseSelect(SpellSelect(columns, table, rest))
         == Parsed(Some(SelectStmt(columns, table)), Expect(rest, EndOfLine).rest)
    ensures At(SpellSelect(columns, table, rest), Select)
  {
    hide Expect;
    var r1 := [Tok(Identifier, table)] + rest;
    var tail := [Tok(From, "FROM")] + r1;
    ExpectHit(Tok(Select, "SELECT"), if columns == ["*"] then [Tok(Star, "*")] + tail else SpellNames(columns, tail));
    if columns == ["*"] {
      ExpectHit(Tok(Star, "*"), tail);
    } else {
      NamesRead(columns, tail);
    }
    ExpectHit(Tok(From, "FROM"), r1);
    ExpectHit(Tok(Identifier, table), rest);
  }

  lemma ColumnListRead(columns: seq<string>, rest: seq<Token>)
    requires !At(rest, OpenParen)
    ensures ParseColumnList(SpellColumnList(columns, rest)) == Parsed(Some(columns), rest)
  {
    hide Expect;
    if columns != [] {
      var r := [Tok(CloseParen, ")")] + rest;
      ExpectHit(Tok(OpenParen, "("), SpellNames(columns, r));
      NamesRead(columns, r);
      ExpectHit(Tok(CloseParen, ")"), rest);
    }
  }

  lemma {:induction false} InsertRead(table: string, columns: seq<string>, values: seq<Value>, rest: seq<Token>)
    requires values != [] && (forall v :: v in values ==> ValueOk(v))
    ensures ParseInsert(SpellInsert(table, columns, values, rest))
         == Parsed(Some(InsertStmt(table, columns, values)), rest)
    ensures At(SpellInsert(table, columns, values, rest), Insert)
  {
    hide Expect, ValueOk, ParseValues, SpellValues, ParseColumnList, SpellColumnList;
    var r1 := [Tok(EndOfLine, ";")] + rest;
    var r2 := [Tok(CloseParen, ")")] + r1;
    var r3 := SpellValues(values, r2);
    var r4 := [Tok(OpenParen, "(")] + r3;
    var r5 := [Tok(TokenType.Values, "VALUES")] + r4;
    var r6 := SpellColumnList(columns, r5);
    var r7 := [Tok(Identifier, table)] + r6;
    var r8 := [Tok(Into, "INTO")] + r7;
    ExpectHit(Tok(Insert, "INSERT"), r8);
    ExpectHit(Tok(Into, "INTO"), r7);
    ExpectHit(Tok(Identifier, table), r6);
    ColumnListRead(columns, r5);
    ExpectHit(Tok(TokenType.Values, "VALUES"), r4);
    ExpectHit(Tok(OpenParen, "("), r3);
    ValuesRead(values, r2);
    ExpectHit(Tok(CloseParen, ")"), r1);
    ExpectHit(Tok(EndOfLine, ";"), rest);
  }

  lemma {:induction false} CreateRead(table: string, defs: seq<ColumnDef>, shorts: seq<bool>, rest: seq<Token>)
    requires defs != [] && |shorts| == |defs| && (forall d :: d in defs ==> DefOk(d))
    requires forall k :: 0 <= k < |defs| ==> ShortOk(defs[k], shorts[k])
    ensures ParseCreate(SpellCreate(table, defs, shorts, rest)) == Parsed(Some(CreateStmt(table, defs)), rest)
    ensures At(SpellCreate(table, defs, shorts, rest), Create)
  {
    hide Expect, DefOk, ShortOk, ParseDefs, SpellDefs;
    var r1 := [Tok(EndOfLine, ";")] + rest;
    var r2 := [Tok(CloseParen, ")")] + r1;
    var r3 := SpellDefs(defs, shorts, r2);
    var r4 := [Tok(OpenParen, "(")] + r3;
    var r5 := [Tok(Identifier, table)] + r4;
    var r6 := [Tok(Table, "TABLE")] + r5;
    ExpectHit(Tok(Create, "CREATE"), r6);
    ExpectHit(Tok(Table, "TABLE"), r5);
    ExpectHit(Tok(Identifier, table), r4);
    ExpectHit(Tok(OpenParen, "("), r3);
    DefsRead(defs, shorts, r2);
    ExpectHit(Tok(CloseParen, ")"), r1);
    ExpectHit(Tok(EndOfLine, ";"), rest);
  }

  lemma ControlRead(rest: seq<Token>)
    ensures ParseBegin(SpellBegin(rest)) == Parsed(Some(BeginStmt), rest)
    ensures ParseCommit(SpellCommit(rest)) == Parsed(Some(CommitStmt), rest)
    ensures At(SpellBegin(rest), Begin) && At(SpellCommit(rest), Commit)
  {
    hide Expect;
    var r1 := [Tok(EndOfLine, ";")] + rest;
    var r2 := [Tok(Transaction, "TRANSACTION")] + r1;
    ExpectHit(Tok(Begin, "BEGIN"), r2);
    ExpectHit(Tok(Transaction, "TRANSACTION"), r1);
    ExpectHit(Tok(EndOfLine, ";"), rest);
    ExpectHit(Tok(Commit, "COMMIT"), r1);
  }

  // ---------- what is read is spelled ----------

  // Tokens as the lexer gives them, but for their line numbers.
  ghost predicate Clean(ts: seq<Token>) {
    forall k :: 0 <= k < |ts| ==> Classify(ts[k].lexeme) == Some(ts[k].kind) && ts[k].line == 1
  }

  lemma CleanTail(ts: seq<Token>)
    requires Clean(ts) && ts != []
    ensures Clean(ts[1..]) && ts == [ts[0]] + ts[1..]
  {
  }

  lemma ExpectFixed(ts: seq<Token>, kind: TokenType)
    requires Clean(ts) && Fixed(kind).Some? && At(ts, kind)
    ensures ts == [Tok(kind, Fixed(kind).value)] + ts[1..] && Clean(ts[1..])
    ensures Expect(ts, kind) == Parsed(Some(ts[0]), ts[1..])
  {
    CleanTail(ts);
    FixedLexeme(ts[0].lexeme, kind);
  }

  lemma ExpectName(ts: seq<Token>)
    requires Clean(ts) && At(ts, Identifier)
    ensures ts == [Tok(Identifier, ts[0].lexeme)] + ts[1..] && Clean(ts[1..]) && IsName(ts[0].lexeme)
    ensures Expect(ts, Identifier) == Parsed(Some(ts[0]), ts[1..])
  {
    CleanTail(ts);
  }

  lemma ExpectSome(ts: seq<Token>, kind: TokenType)
    ensures Expect(ts, kind).value.Some? <==> At(ts, kind)
  {
  }

  // A list of names begins with a name; behind a comma there is another list.
  lemma FirstNameSpelled(ts: seq<Token>)
    requires Clean(ts) && ParseNames(ts).value.Some?
    ensures ts != [] && ts == [Tok(Identifier, ts[0].lexeme)] + ts[1..] && IsName(ts[0].lexeme) && Clean(ts[1..])
    ensures if At(ts[1..], Comma)
            then |ts| > 1 && ts[1..] == [Tok(Comma, ",")] + ts[2..] && Clean(ts[2..])
                 && ParseNames(ts[2..]).value.Some?
                 && ParseNames(ts) == Parsed(Some([ts[0].lexeme] + ParseNames(ts[2..]).value.value),
                                             ParseNames(ts[2..]).rest)
            else ParseNames(ts) == Parsed(Some([ts[0].lexeme]), ts[1..])
  {
    hide IsName, Classify, Expect, At, Clean, Fixed;
    FixedTexts();
    ExpectSome(ts, Identifier);
    ExpectName(ts);
    if At(ts[1..], Comma) {
      ExpectFixed(ts[1..], Comma);
      assert ts[1..][1..] == ts[2..];
    }
  }

  lemma {:induction false} NamesSpelled(ts: seq<Token>)
    requires Clean(ts) && ParseNames(ts).value.Some?
    ensures var names, rest := ParseNames(ts).value.value, ParseNames(ts).rest;
            names != [] && (forall c :: c in names ==> IsName(c)) && Clean(rest) && !At(rest, Comma)
            && ts == SpellNames(names, rest)
    decreases |ts|
  {
    hide IsName, Classify, ParseNames, At, Clean;
    FirstNameSpelled(ts);
    if At(ts[1..], Comma) {
      NamesSpelled(ts[2..]);
      var names := ParseNames(ts).value.value;
      assert names[1..] == ParseNames(ts[2..]).value.value;
      assert forall c :: c in names ==> c == names[0] || c in names[1..];
    }
  }

  lemma ValueSpelled(ts: seq<Token>)
    requires Clean(ts) && ParseValue(ts).value.Some?
    ensures var v, rest := ParseValue(ts).value.value, ParseValue(ts).rest;
            ValueOk(v) && rest == ts[1..] && Clean(rest) && ts == [ValueToken(v)] + rest
  {
    CleanTail(ts);
    if ts[0].kind == VarcharLiteral {
      VarcharClass(ts[0].lexeme);
      QuoteUnquote(ts[0].lexeme);
    } else {
      IntegerClass(ts[0].lexeme);
      DecimalAtoi(ts[0].lexeme);
    }
  }

  lemma {:induction false} ValuesSpelled(ts: seq<Token>)
    requires Clean(ts) && ParseValues(ts).value.Some?
    ensures var values, rest := ParseValues(ts).value.value, ParseValues(ts).rest;
            values != [] && (forall v :: v in values ==> ValueOk(v)) && Clean(rest)
            && ts == SpellValues(values, rest)
    decreases |ts|
  {
    hide ValueOk, ParseValue, ValueToken, Classify;
    ValueSpelled(ts);
    var next := ts[1..];
    if At(next, Comma) {
      ExpectFixed(next, Comma);
      ValuesSpelled(next[1..]);
      var more := ParseValues(next[1..]).value.value;
      var values := ParseValues(ts).value.value;
      assert values[1..] == more;
      assert forall v :: v in values ==> v == values[0] || v in more;
    }
  }

  lemma LengthSpelled(ts: seq<Token>)
    requires Clean(ts) && At(ts, OpenParen) && ParseLength(ts).value.Some?
    ensures var n, rest := ParseLength(ts).value.value, ParseLength(ts).rest;
            n >= 0 && Clean(rest)
            && ts == [Tok(OpenParen, "(")] + ([Tok(IntLiteral, Decimal(n))] + ([Tok(CloseParen, ")")] + rest))
  {
    hide Classify, Decimal, Atoi;
    ExpectFixed(ts, OpenParen);
    var r1 := ts[1..];
    ExpectSome(r1, IntLiteral);
    CleanTail(r1);
    IntegerClass(r1[0].lexeme);
    DecimalAtoi(r1[0].lexeme);
    var r2 := r1[1..];
    ExpectSome(r2, CloseParen);
    ExpectFixed(r2, CloseParen);
  }

  lemma {:induction false} DefSpelled(ts: seq<Token>)
    returns (short: bool)
    requires Clean(ts) && ParseDef(ts).value.Some?
    ensures var d, rest := ParseDef(ts).value.value, ParseDef(ts).rest;
            DefOk(d) && ShortOk(d, short) && Clean(rest) && (short ==> !At(rest, OpenParen))
            && ts == SpellDef(d, short, rest)
  {
    hide Classify, Decimal, ParseLength;
    ExpectSome(ts, Identifier);
    ExpectName(ts);
    var next := ts[1..];
    short := false;
    if At(next, TypeInt) {
      ExpectFixed(next, TypeInt);
    } else {
      ExpectFixed(next, TypeVarchar);
      if At(next[1..], OpenParen) {
        LengthSpelled(next[1..]);
      } else {
        LengthDefault(next[1..]);
        short := true;
      }
    }
  }

  lemma {:induction false} DefsSpelled(ts: seq<Token>) returns (shorts: seq<bool>)
    requires Clean(ts) && ParseDefs(ts).value.Some?
    ensures var defs, rest := ParseDefs(ts).value.value, ParseDefs(ts).rest;
            defs != [] && (forall d :: d in defs ==> DefOk(d)) && |shorts| == |defs|
            && (forall k :: 0 <= k < |defs| ==> ShortOk(defs[k], shorts[k])) && Clean(rest)
            && ts == SpellDefs(defs, shorts, rest)
    decreases |ts|
  {
    hide DefOk, ParseDef, SpellDef, Classify, ShortOk;
    var short := DefSpelled(ts);
    var next := ParseDef(ts).rest;
    if At(next, Comma) {
      ExpectFixed(next, Comma);
      var more := DefsSpelled(next[1..]);
      shorts := [short] + more;
      var defs := ParseDefs(ts).value.value;
      assert defs[1..] == ParseDefs(next[1..]).value.value && shorts[1..] == more;
      assert forall d :: d in defs ==> d == defs[0] || d in defs[1..];
    } else {
      shorts := [short];
    }
  }

  lemma {:induction false} SelectSpelled(ts: seq<Token>) returns (tail: seq<Token>)
    requires Clean(ts) && ParseSelect(ts).value.Some?
    ensures var stmt := ParseSelect(ts).value.value;
            stmt.SelectStmt? && WellFormed(stmt) && ts == SpellSelect(stmt.columns, stmt.table, tail)
  {
    hide IsName, Classify, Fixed;
    FixedTexts();
    ExpectSome(ts, Select);
    ExpectFixed(ts, Select);
    var r1 := ts[1..];
    var r2;
    if At(r1, Star) {
      ExpectFixed(r1, Star);
      r2 := r1[1..];
    } else {
      NamesSpelled(r1);
      NoStarName();
      r2 := ParseNames(r1).rest;
    }
    ExpectSome(r2, From);
    ExpectFixed(r2, From);
    ExpectSome(r2[1..], Identifier);
    ExpectName(r2[1..]);
    tail := r2[1..][1..];
  }

  lemma FixedTexts()
    ensures Fixed(Select) == Some("SELECT") && Fixed(Star) == Some("*") && Fixed(From) == Some("FROM")
    ensures Fixed(Insert) == Some("INSERT") && Fixed(Into) == Some("INTO") && Fixed(TokenType.Values) == Some("VALUES")
    ensures Fixed(Create) == Some("CREATE") && Fixed(Table) == Some("TABLE") && Fixed(Begin) == Some("BEGIN")
    ensures Fixed(Transaction) == Some("TRANSACTION") && Fixed(Commit) == Some("COMMIT")
    ensures Fixed(Comma) == Some(",")
    ensures Fixed(OpenParen) == Some("(") && Fixed(CloseParen) == Some(")") && Fixed(EndOfLine) == Some(";")
  {
  }

  lemma NoStarName()
    ensures !IsName("*")
  {
  }

  lemma ColumnListSpelled(ts: seq<Token>)
    requires Clean(ts) && ParseColumnList(ts).value.Some?
    ensures var columns, rest := ParseColumnList(ts).value.value, ParseColumnList(ts).rest;
            (forall c :: c in columns ==> IsName(c)) && Clean(rest) && ts == SpellColumnList(columns, rest)
  {
    hide IsName, Classify, Fixed, Expect, Clean, ParseNames, SpellNames;
    FixedTexts();
    if At(ts, OpenParen) {
      ExpectFixed(ts, OpenParen);
      NamesSpelled(ts[1..]);
      var r := ParseNames(ts[1..]).rest;
      ExpectSome(r, CloseParen);
      ExpectFixed(r, CloseParen);
    }
  }

  // The two tokens that end an INSERT or a CREATE.
  lemma EndSpelled(ts: seq<Token>)
    requires Clean(ts) && At(ts, CloseParen) && At(ts[1..], EndOfLine)
    ensures ts == SpellEnd(ts[2..])
  {
    hide Classify, Fixed;
    FixedTexts();
    ExpectFixed(ts, CloseParen);
    ExpectFixed(ts[1..], EndOfLine);
    assert ts[1..][1..] == ts[2..];
  }

  lemma {:induction false} InsertSpelled(ts: seq<Token>) returns (rest: seq<Token>)
    requires Clean(ts) && ParseInsert(ts).value.Some?
    ensures var stmt := ParseInsert(ts).value.value;
            stmt.InsertStmt? && WellFormed(stmt) && ts == SpellInsert(stmt.table, stmt.columns, stmt.values, rest)
  {
    hide IsName, ValueOk, Classify, Fixed, Expect, At, Clean;
    hide ParseColumnList, SpellColumnList, ParseValues, SpellValues, SpellEnd;
    FixedTexts();
    ExpectSome(ts, Insert);
    ExpectFixed(ts, Insert);
    var r1 := ts[1..];
    ExpectSome(r1, Into);
    ExpectFixed(r1, Into);
    var r2 := r1[1..];
    ExpectSome(r2, Identifier);
    ExpectName(r2);
    ColumnListSpelled(r2[1..]);
    var r3 := ParseColumnList(r2[1..]).rest;
    ExpectSome(r3, TokenType.Values);
    ExpectFixed(r3, TokenType.Values);
    ExpectSome(r3[1..], OpenParen);
    ExpectFixed(r3[1..], OpenParen);
    ValuesSpelled(r3[1..][1..]);
    var r4 := ParseValues(r3[1..][1..]).rest;
    ExpectSome(r4, CloseParen);
    ExpectFixed(r4, CloseParen);
    ExpectSome(r4[1..], EndOfLine);
    EndSpelled(r4);
    rest := r4[2..];
  }

  lemma {:induction false} CreateSpelled(ts: seq<Token>) returns (shorts: seq<bool>, rest: seq<Token>)
    requires Clean(ts) && ParseCreate(ts).value.Some?
    ensures var stmt := ParseCreate(ts).value.value;
            stmt.CreateStmt? && WellFormed(stmt) && |shorts| == |stmt.defs|
            && (forall k :: 0 <= k < |shorts| ==> ShortOk(stmt.defs[k], shorts[k]))
            && ts == SpellCreate(stmt.table, stmt.defs, shorts, rest)
  {
    hide IsName, DefOk, Classify, Fixed, Expect, At, Clean, ParseDefs, SpellDefs, SpellEnd, ShortOk;
    FixedTexts();
    ExpectSome(ts, Create);
    ExpectFixed(ts, Create);
    var r1 := ts[1..];
    ExpectSome(r1, Table);
    ExpectFixed(r1, Table);
    var r2 := r1[1..];
    ExpectSome(r2, Identifier);
    ExpectName(r2);
    ExpectSome(r2[1..], OpenParen);
    ExpectFixed(r2[1..], OpenParen);
    shorts := DefsSpelled(r2[1..][1..]);
    var r3 := ParseDefs(r2[1..][1..]).rest;
    ExpectSome(r3, CloseParen);
    ExpectFixed(r3, CloseParen);
    ExpectSome(r3[1..], EndOfLine);
    EndSpelled(r3);
    rest := r3[2..];
  }

  lemma BeginSpelled(ts: seq<Token>)
    requires Clean(ts) && ParseBegin(ts).value.Some?
    ensures ParseBegin(ts).value.value == BeginStmt && |ts| >= 3 && ts == SpellBegin(ts[3..])
  {
    hide Classify, Fixed;
    FixedTexts();
    ExpectSome(ts, Begin);
    ExpectFixed(ts, Begin);
    ExpectSome(ts[1..], Transaction);
    ExpectFixed(ts[1..], Transaction);
    ExpectSome(ts[1..][1..], EndOfLine);
    ExpectFixed(ts[1..][1..], EndOfLine);
    assert ts[1..][1..][1..] == ts[3..];
  }

  lemma CommitSpelled(ts: seq<Token>)
    requires Clean(ts) && ParseCommit(ts).value.Some?
    ensures ParseCommit(ts).value.value == CommitStmt && |ts| >= 2 && ts == SpellCommit(ts[2..])
  {
    hide Classify, Fixed;
    FixedTexts();
    ExpectSome(ts, Commit);
    ExpectFixed(ts, Commit);
    ExpectSome(ts[1..], EndOfLine);
    ExpectFixed(ts[1..], EndOfLine);
    assert ts[1..][1..] == ts[2..];
  }

  // ---------- the language ----------

  // The list starts with a spelling of the statement.
  ghost predicate Spells(stmt: Statement, ts: seq<Token>)
    requires WellFormed(stmt)
  {
    match stmt
    case SelectStmt(columns, table) => exists tail :: ts == SpellSelect(columns, table, tail)
    case InsertStmt(table, columns, values) => exists rest :: ts == SpellInsert(table, columns, values, rest)
    case CreateStmt(table, defs) =>
      exists shorts: seq<bool>, rest ::
        |shorts| == |defs| && (forall k :: 0 <= k < |shorts| ==> ShortOk(defs[k], shorts[k]))
        && ts == SpellCreate(table, defs, shorts, rest)
    case BeginStmt => exists rest :: ts == SpellBegin(rest)
    case CommitStmt => exists rest :: ts == SpellCommit(rest)
  }

  lemma {:induction false} SpellingIsRead(stmt: Statement, ts: seq<Token>)
    requires WellFormed(stmt) && Spells(stmt, ts)
    ensures ParseTokens(ts) == Some(stmt)
  {
    hide ParseSelect, ParseInsert, ParseCreate, ParseBegin, ParseCommit, IsName, ValueOk, DefOk, ShortOk;
    hide SpellSelect, SpellInsert, SpellCreate, SpellBegin, SpellCommit;
    match stmt
    case SelectStmt(columns, table) =>
      var tail :| ts == SpellSelect(columns, table, tail);
      SelectRead(columns, table, tail);
    case InsertStmt(table, columns, values) =>
      var rest :| ts == SpellInsert(table, columns, values, rest);
      InsertRead(table, columns, values, rest);
    case CreateStmt(table, defs) =>
      var shorts: seq<bool>, rest :|
        |shorts| == |defs| && (forall k :: 0 <= k < |shorts| ==> ShortOk(defs[k], shorts[k]))
        && ts == SpellCreate(table, defs, shorts, rest);
      CreateRead(table, defs, shorts, rest);
    case BeginStmt =>
      var rest :| ts == SpellBegin(rest);
      ControlRead(rest);
    case CommitStmt =>
      var rest :| ts == SpellCommit(rest);
      ControlRead(rest);
  }

  lemma {:induction false} ReadIsSpelled(ts: seq<Token>)
    requires Clean(ts)
    ensures ParseTokens(ts).Some? ==> WellFormed(ParseTokens(ts).value) && Spells(ParseTokens(ts).value, ts)
  {
    hide ParseSelect, ParseInsert, ParseCreate, ParseBegin, ParseCommit, IsName, Classify;
    if ParseTokens(ts).None? {
    } else if At(ts, Select) {
      var tail := SelectSpelled(ts);
    } else if At(ts, Insert) {
      var rest := InsertSpelled(ts);
    } else if At(ts, Create) {
      var shorts, rest := CreateSpelled(ts);
    } else if At(ts, Begin) {
      BeginSpelled(ts);
    } else {
      CommitSpelled(ts);
    }
  }

  // The parser returns a statement exactly when the tokens spell it.
  lemma {:induction false} AcceptsExactly(ts: seq<Token>, stmt: Statement)
    requires Clean(ts)
    ensures ParseTokens(ts) == Some(stmt) <==> WellFormed(stmt) && Spells(stmt, ts)
  {
    ReadIsSpelled(ts);
    if WellFormed(stmt) && Spells(stmt, ts) {
      SpellingIsRead(stmt, ts);
    }
  }

  // Only a SELECT is read without its semicolon.
  lemma SelectWithoutSemicolon(table: string)
    ensures ParseTokens([Tok(Select, "SELECT"), Tok(Star, "*"), Tok(From, "FROM"), Tok(Identifier, table)])
         == Some(SelectStmt(["*"], table))
  {
  }

  lemma ControlWithoutSemicolon()
    ensures ParseTokens([Tok(Begin, "BEGIN"), Tok(Transaction, "TRANSACTION")]).None?
    ensures ParseTokens([Tok(Commit, "COMMIT")]).None?
  {
  }

  // The normal spelling is one.
  lemma TokensSpell(stmt: Statement)
    requires WellFormed(stmt)
    ensures Spells(stmt, Tokens(stmt))
  {
    match stmt
    case SelectStmt(columns, table) =>
      assert Tokens(stmt) == SpellSelect(columns, table, [Tok(EndOfLine, ";")]);
    case InsertStmt(table, columns, values) =>
      assert Tokens(stmt) == SpellInsert(table, columns, values, []);
    case CreateStmt(table, defs) =>
      var shorts := AllLong(|defs|);
      assert forall k :: 0 <= k < |shorts| ==> ShortOk(defs[k], shorts[k]);
      assert Tokens(stmt) == SpellCreate(table, defs, shorts, []);
    case BeginStmt => assert Tokens(stmt) == SpellBegin([]);
    case CommitStmt => assert Tokens(stmt) == SpellCommit([]);
  }
}
