/**
 The maximal-munch lexer of src/compiler/tokenizer.c.

 At each position the program tries every prefix of the rest of the input against seven classifiers and keeps
 the longest one that any of them accepts. The set of accepted strings is not prefix-closed: a single quote
 is a token of its own and so is 'it''s', but 'it is not. `Longest` is that exhaustive search, `ScanLength` the
 scanner that reads each character once, and `ScanIsLongest` says that they agree on every input.
 */
module Tokenizer {
  import opened Options
  import opened Sequences

  datatype TokenType =
    | Select | From | Insert | Into | Values | Create | Table | Begin | Commit | Transaction
    | TypeVarchar | TypeInt
    | EndOfLine | Comma | OpenParen | CloseParen | Quote | Star
    | Identifier | VarcharLiteral | IntLiteral

  datatype Token = Token(kind: TokenType, lexeme: string, line: nat)

  // ---------- the classifiers ----------

  function Keyword(s: string): Option<TokenType> {
    if s == "SELECT" then Some(Select)
    else if s == "FROM" then Some(From)
    else if s == "INSERT" then Some(Insert)
    else if s == "INTO" then Some(Into)
    else if s == "VALUES" then Some(Values)
    else if s == "CREATE" then Some(Create)
    else if s == "TABLE" then Some(Table)
    else if s == "BEGIN" then Some(Begin)
    else if s == "TRANSACTION" then Some(Transaction)
    else if s == "COMMIT" then Some(Commit)
    else None
  }

  function TypeName(s: string): Option<TokenType> {
    if s == "VARCHAR" then Some(TypeVarchar) else if s == "INT" then Some(TypeInt) else None
  }

  function Symbol(c: char): Option<TokenType> {
    if c == '*' then Some(Star)
    else if c == '(' then Some(OpenParen)
    else if c == ')' then Some(CloseParen)
    else if c == '\'' then Some(Quote)
    else if c == ';' then Some(EndOfLine)
    else if c == ',' then Some(Comma)
    else None
  }

  // is_operator_strcmp and is_punctuation_strcmp: strings of one character
  function Operator(s: string): Option<TokenType> {
    if |s| == 1 then Symbol(s[0]) else None
  }

  predicate IsDigit(c: char) {
    '0' <= c <= '9'
  }

  predicate IsLetter(c: char) {
    'a' <= c <= 'z' || 'A' <= c <= 'Z'
  }

  predicate IsAlnum(c: char) {
    IsLetter(c) || IsDigit(c)
  }

  predicate IsSpace(c: char) {
    c == ' ' || c == '\n' || c == '\t' || c == '\r'
  }

  // ^[a-zA-Z_]([a-zA-Z0-9])*$
  predicate IsIdentifier(s: string) {
    s != "" && (IsLetter(s[0]) || s[0] == '_') && forall i :: 1 <= i < |s| ==> IsAlnum(s[i])
  }

  // ^(0|[1-9][0-9]*)$
  predicate IsInteger(s: string) {
    s == "0" || (s != "" && '1' <= s[0] <= '9' && forall i :: 1 <= i < |s| ==> IsDigit(s[i]))
  }

  // ([^']|'')*' , what follows the opening quote of a literal
  predicate IsBody(s: string) {
    if s == "" then false
    else if s[0] != '\'' then IsBody(s[1..])
    else |s| == 1 || (s[1] == '\'' && IsBody(s[2..]))
  }

  // ^'([^']|'')*'$
  predicate IsVarchar(s: string) {
    s != "" && s[0] == '\'' && IsBody(s[1..])
  }

  // The first class that accepts, in the order in which the program asks.
  function Classify(s: string): Option<TokenType> {
    if Keyword(s).Some? then Keyword(s)
    else if TypeName(s).Some? then TypeName(s)
    else if Operator(s).Some? then Operator(s)
    else if IsIdentifier(s) then Some(Identifier)
    else if IsVarchar(s) then Some(VarcharLiteral)
    else if IsInteger(s) then Some(IntLiteral)
    else None
  }

  // ---------- the exhaustive search ----------

  // The length of the longest accepted prefix of at most n characters, 0 if there is none.
  function Longest(s: string, n: nat): (k: nat)
    requires n <= |s|
    ensures k <= n
    ensures k > 0 ==> Classify(s[..k]).Some?
  {
    if n == 0 then 0 else if Classify(s[..n]).Some? then n else Longest(s, n - 1)
  }

  lemma {:induction false} NoneLonger(s: string, n: nat)
    requires n <= |s|
    ensures forall m :: Longest(s, n) < m <= n ==> Classify(s[..m]).None?
  {
    if n > 0 && Classify(s[..n]).None? {
      NoneLonger(s, n - 1);
    }
  }

  lemma {:induction false} LongestIs(s: string, n: nat, k: nat)
    requires k <= n <= |s|
    requires k > 0 ==> Classify(s[..k]).Some?
    requires forall m :: k < m <= n ==> Classify(s[..m]).None?
    ensures Longest(s, n) == k
  {
    if k < n {
      LongestIs(s, n - 1, k);
    }
  }

  datatype Scanned = Scanned(ok: bool, tokens: seq<Token>)

  function Prepend(t: Token, r: Scanned): Scanned {
    Scanned(r.ok, [t] + r.tokens)
  }

  // The tokens of the input, up to the first character that nothing accepts.
  function Scan(s: string, line: nat): Scanned
    decreases |s|
  {
    if s == "" then
      Scanned(true, [])
    else
      var k := Longest(s, |s|);
      if k > 0 then
        Prepend(Token(Classify(s[..k]).value, s[..k], line), Scan(s[k..], line))
      else if IsSpace(s[0]) then
        Scan(s[1..], if s[0] == '\n' then line + 1 else line)
      else
        Scanned(false, [])
  }

  // The inner loop: candidates of growing length, the last accepted one wins.
  method LongestMatch(text: string, position: nat, ghost rest: string)
    returns (kind: Option<TokenType>, lexeme: string)
    requires position <= |text| && rest == text[position..]
    ensures lexeme == rest[..Longest(rest, |rest|)]
    ensures kind == if lexeme == "" then None else Classify(lexeme)
  {
    hide Classify;
    kind, lexeme := None, "";
    for i := position to |text|
      invariant lexeme == rest[..Longest(rest, i - position)]
      invariant kind == if lexeme == "" then None else Classify(lexeme)
    {
      var candidate := text[position..i + 1];
      assert candidate == rest[..i + 1 - position];
      var candidateKind := Classify(candidate);
      if candidateKind.Some? {
        kind, lexeme := candidateKind, candidate;
      }
    }
  }

  lemma SliceOfRest(text: string, position: nat, k: nat)
    requires position + k <= |text|
    ensures text[position..][..k] == text[position..position + k]
    ensures text[position..][k..] == text[position + k..]
  {
  }

  // The tokens so far, followed by those of the rest, make up the result.
  ghost predicate Progress(result: Scanned, tokens: seq<Token>, rest: string, line: nat) {
    result == Scanned(Scan(rest, line).ok, tokens + Scan(rest, line).tokens)
  }

  lemma ProgressStart(text: string, line: nat)
    ensures Progress(Scan(text, line), [], text, line)
  {
  }

  lemma ProgressEnd(result: Scanned, tokens: seq<Token>, line: nat)
    requires Progress(result, tokens, "", line)
    ensures result == Scanned(true, tokens)
  {
  }

  lemma {:induction false} ProgressToken(result: Scanned, tokens: seq<Token>, rest: string, line: nat)
    requires Progress(result, tokens, rest, line) && rest != "" && Longest(rest, |rest|) > 0
    ensures var k := Longest(rest, |rest|);
            Progress(result, tokens + [Token(Classify(rest[..k]).value, rest[..k], line)], rest[k..], line)
  {
    hide Longest, Classify;
    var k := Longest(rest, |rest|);
    var t := Token(Classify(rest[..k]).value, rest[..k], line);
    ConcatAssociates(tokens, [t], Scan(rest[k..], line).tokens);
  }

  lemma ProgressNone(result: Scanned, tokens: seq<Token>, rest: string, line: nat)
    requires Progress(result, tokens, rest, line) && rest != "" && Longest(rest, |rest|) == 0
    ensures if IsSpace(rest[0])
            then Progress(result, tokens, rest[1..], if rest[0] == '\n' then line + 1 else line)
            else result == Scanned(false, tokens)
  {
  }

  method Tokenize(text: string) returns (ok: bool, tokens: seq<Token>)
    ensures Scanned(ok, tokens) == Scan(text, 1)
  {
    tokens := [];
    var position := 0;
    var line := 1;
    ghost var result, rest := Scan(text, 1), text;
    hide Progress, Classify, Longest, Scan;
    assert Progress(result, tokens, rest, line) by { ProgressStart(text, 1); }
    while position < |text|
      invariant position <= |text| && rest == text[position..]
      invariant Progress(result, tokens, rest, line)
    {
      var kind, lexeme := LongestMatch(text, position, rest);
      if kind.Some? {
        ProgressToken(result, tokens, rest, line);
        SliceOfRest(text, position, |lexeme|);
        tokens := tokens + [Token(kind.value, lexeme, line)];
        position := position + |lexeme|;
        rest := rest[|lexeme|..];
      } else {
        ProgressNone(result, tokens, rest, line);
        if !IsSpace(text[position]) {
          return false, tokens;
        }
        if text[position] == '\n' {
          line := line + 1;
        }
        SliceOfRest(text, position, 1);
        position := position + 1;
        rest := rest[1..];
      }
    }
    ok := true;
    ProgressEnd(result, tokens, line);
  }

  // ---------- one pass over the characters ----------

  // The length of the run of characters at the front.
  function AlnumRun(s: string): (k: nat)
    ensures k <= |s| && (k < |s| ==> !IsAlnum(s[k])) && forall i :: 0 <= i < k ==> IsAlnum(s[i])
  {
    if s == "" || !IsAlnum(s[0]) then 0 else 1 + AlnumRun(s[1..])
  }

  function DigitRun(s: string): (k: nat)
    ensures k <= |s| && (k < |s| ==> !IsDigit(s[k])) && forall i :: 0 <= i < k ==> IsDigit(s[i])
  {
    if s == "" || !IsDigit(s[0]) then 0 else 1 + DigitRun(s[1..])
  }

  // The length of the longest literal body at the front, 0 if the literal is never closed.
  function BodyLength(s: string): (k: nat)
    ensures k <= |s|
  {
    if s == "" then
      0
    else if s[0] != '\'' then
      var k := BodyLength(s[1..]);
      if k == 0 then 0 else k + 1
    else if |s| >= 2 && s[1] == '\'' then
      var k := BodyLength(s[2..]);
      if k == 0 then 1 else k + 2
    else
      1
  }

  function ScanLength(s: string): (k: nat)
    ensures k <= |s|
  {
    if s == "" then 0
    else if IsLetter(s[0]) || s[0] == '_' then 1 + AlnumRun(s[1..])
    else if s[0] == '0' then 1
    else if IsDigit(s[0]) then 1 + DigitRun(s[1..])
    else if s[0] == '\'' then 1 + BodyLength(s[1..])
    else if Symbol(s[0]).Some? then 1
    else 0
  }

  lemma {:induction false} BodyLengthIsBody(s: string)
    ensures BodyLength(s) > 0 ==> IsBody(s[..BodyLength(s)])
    decreases |s|
  {
    var k := BodyLength(s);
    if k > 0 {
      if s[0] != '\'' {
        BodyLengthIsBody(s[1..]);
        assert s[..k][1..] == s[1..][..k - 1];
      } else if |s| >= 2 && s[1] == '\'' {
        BodyLengthIsBody(s[2..]);
        if k > 1 {
          assert s[..k][2..] == s[2..][..k - 2];
        }
      }
    }
  }

  lemma {:induction false} BodyLengthLongest(s: string, n: nat)
    requires n <= |s|
    ensures IsBody(s[..n]) ==> n <= BodyLength(s)
    decreases |s|
  {
    assert !IsBody("");
    if n > 0 {
      if s[0] != '\'' {
        assert s[..n][1..] == s[1..][..n - 1];
        BodyLengthLongest(s[1..], n - 1);
      } else if n > 1 {
        assert s[..n][2..] == s[2..][..n - 2];
        BodyLengthLongest(s[2..], n - 2);
      }
    }
  }

  lemma KeywordIsIdentifier(s: string)
    requires Keyword(s).Some? || TypeName(s).Some?
    ensures IsIdentifier(s) && !IsVarchar(s) && !IsInteger(s) && |s| > 1
  {
  }

  // Which strings are accepted at all.
  lemma Accepted(s: string)
    ensures Classify(s).Some? <==> Operator(s).Some? || IsIdentifier(s) || IsVarchar(s) || IsInteger(s)
  {
    if Keyword(s).Some? || TypeName(s).Some? {
      KeywordIsIdentifier(s);
    }
  }

  lemma ScanAccepts(s: string)
    requires ScanLength(s) > 0
    ensures Classify(s[..ScanLength(s)]).Some?
  {
    var p := s[..ScanLength(s)];
    Accepted(p);
    if IsLetter(s[0]) || s[0] == '_' {
      assert forall i :: 1 <= i < |p| ==> p[i] == s[1..][i - 1];
      assert IsIdentifier(p);
    } else if s[0] != '0' && IsDigit(s[0]) {
      assert forall i :: 1 <= i < |p| ==> p[i] == s[1..][i - 1];
      assert IsInteger(p);
    } else if s[0] == '\'' {
      BodyLengthIsBody(s[1..]);
      assert p[1..] == s[1..][..BodyLength(s[1..])];
    }
  }

  lemma NothingLonger(s: string, m: nat)
    requires ScanLength(s) < m <= |s|
    ensures Classify(s[..m]).None?
  {
    var p, k := s[..m], ScanLength(s);
    Accepted(p);
    assert k > 0 ==> p[k] == s[1..][k - 1];
    assert p[1..] == s[1..][..m - 1];
    BodyLengthLongest(s[1..], m - 1);
  }

  // The exhaustive search finds what one pass finds.
  lemma {:induction false} ScanIsLongest(s: string)
    ensures Longest(s, |s|) == ScanLength(s)
  {
    if ScanLength(s) > 0 {
      ScanAccepts(s);
    }
    forall m | ScanLength(s) < m <= |s| ensures Classify(s[..m]).None? {
      NothingLonger(s, m);
    }
    LongestIs(s, |s|, ScanLength(s));
  }
}
