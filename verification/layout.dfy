/**
 Text and tokens, both ways.

 From text: the input is the lexemes with blanks around them and, where the lexer fails, a rest that no token starts
 with; each lexeme is the longest accepted prefix of what is left at its position. From tokens: written out with
 blanks or without, they are read back exactly when no lexeme runs on into what follows it (`WeaveScansExactly`).
 */
module Layout {
  import opened Options
  import opened Tokenizer

  predicate Blank(s: string) {
    forall i :: 0 <= i < |s| ==> IsSpace(s[i])
  }

  ghost predicate AllBlank(gaps: seq<string>) {
    forall k :: 0 <= k < |gaps| ==> Blank(gaps[k])
  }

  // The lexemes with a gap before each and one at the end.
  function Weave(gaps: seq<string>, tokens: seq<Token>): string
    requires |gaps| == |tokens| + 1
    decreases |tokens|
  {
    if tokens == [] then gaps[0] else gaps[0] + (tokens[0].lexeme + Weave(gaps[1..], tokens[1..]))
  }

  // Every lexeme is the longest accepted prefix of the text from its start on, and has its class.
  ghost predicate Maximal(gaps: seq<string>, tokens: seq<Token>, rest: string)
    requires |gaps| == |tokens| + 1
    decreases |tokens|
  {
    tokens == [] ||
    (var s := tokens[0].lexeme + (Weave(gaps[1..], tokens[1..]) + rest);
     0 < |tokens[0].lexeme| == Longest(s, |s|)
     && Classify(tokens[0].lexeme) == Some(tokens[0].kind)
     && Maximal(gaps[1..], tokens[1..], rest))
  }

  function Newlines(s: string): nat {
    if s == "" then 0 else (if s[0] == '\n' then 1 else 0) + Newlines(s[1..])
  }

  // Each token carries the number of line breaks in the gaps in front of it; those inside a literal do not count.
  ghost predicate CountsLines(gaps: seq<string>, tokens: seq<Token>, line: nat)
    requires |gaps| == |tokens| + 1
    decreases |tokens|
  {
    tokens == [] ||
    (var n := line + Newlines(gaps[0]);
     tokens[0].line == n && CountsLines(gaps[1..], tokens[1..], n))
  }

  // Whether a token can start with this character.
  predicate Starts(c: char) {
    IsAlnum(c) || c == '_' || Symbol(c).Some?
  }

  lemma ScanLengthZero(s: string)
    ensures ScanLength(s) == 0 <==> s == "" || !Starts(s[0])
  {
  }

  lemma {:induction false} NothingStarts(s: string)
    ensures Longest(s, |s|) == 0 <==> s == "" || !Starts(s[0])
  {
    hide Longest, ScanLength, Starts;
    ScanLengthZero(s);
    ScanIsLongest(s);
  }

  lemma SpaceStartsNothing(c: char)
    requires IsSpace(c)
    ensures !Starts(c)
  {
  }

  // ---------- from text to tokens ----------

  // The input is the lexemes in blanks and, after a failure, a rest that no token starts with.
  ghost predicate Covers(s: string, r: Scanned, gaps: seq<string>, rest: string) {
    |gaps| == |r.tokens| + 1 && AllBlank(gaps)
    && s == Weave(gaps, r.tokens) + rest && Maximal(gaps, r.tokens, rest)
    && if r.ok then rest == "" else rest != "" && !Starts(rest[0]) && !IsSpace(rest[0])
  }

  lemma {:induction false} CoversToken(s: string, k: nat, r: Scanned, gaps: seq<string>, rest: string, line: nat)
    requires 0 < k == Longest(s, |s|) && Covers(s[k..], r, gaps, rest)
    ensures Covers(s, Prepend(Token(Classify(s[..k]).value, s[..k], line), r), [""] + gaps, rest)
  {
    hide Classify, Longest, Starts;
    var t := Token(Classify(s[..k]).value, s[..k], line);
    var wider, tokens := [""] + gaps, [t] + r.tokens;
    assert wider[1..] == gaps && tokens[1..] == r.tokens;
    assert s == s[..k] + (Weave(gaps, r.tokens) + rest);
    TokenInFront(s[..k], Weave(gaps, r.tokens), rest);
  }

  lemma CoversSpace(s: string, r: Scanned, gaps: seq<string>, rest: string)
    requires s != "" && IsSpace(s[0]) && Covers(s[1..], r, gaps, rest)
    ensures Covers(s, r, [[s[0]] + gaps[0]] + gaps[1..], rest)
  {
    hide Classify, Longest, Starts;
    SpaceInFront(s[0], gaps, r.tokens, [[s[0]] + gaps[0]] + gaps[1..], rest);
    assert s == [s[0]] + s[1..];
  }

  lemma GapsFit(s: string, r: Scanned, gaps: seq<string>, rest: string)
    requires Covers(s, r, gaps, rest)
    ensures |gaps| == |r.tokens| + 1
  {
  }

  lemma LinesToken(t: Token, gaps: seq<string>, tokens: seq<Token>)
    requires |gaps| == |tokens| + 1 && CountsLines(gaps, tokens, t.line)
    ensures CountsLines([""] + gaps, [t] + tokens, t.line)
  {
    assert ([""] + gaps)[1..] == gaps && ([t] + tokens)[1..] == tokens;
  }

  lemma LinesSpace(c: char, gaps: seq<string>, tokens: seq<Token>, line: nat)
    requires |gaps| == |tokens| + 1 && CountsLines(gaps, tokens, if c == '\n' then line + 1 else line)
    ensures CountsLines([[c] + gaps[0]] + gaps[1..], tokens, line)
  {
    var wider := [[c] + gaps[0]] + gaps[1..];
    assert wider[1..] == gaps[1..] && wider[0][1..] == gaps[0];
  }

  // How far the lexer gets on any input, the blanks it passes over, and the lines it counts.
  lemma {:induction false} ScanCovers(s: string, line: nat) returns (gaps: seq<string>, rest: string)
    ensures Covers(s, Scan(s, line), gaps, rest)
    ensures CountsLines(gaps, Scan(s, line).tokens, line)
    decreases |s|
  {
    NothingStarts(s);
    if s == "" {
      gaps, rest := [""], "";
    } else if Longest(s, |s|) > 0 {
      hide Classify, Longest, Covers;
      var k := Longest(s, |s|);
      gaps, rest := ScanCovers(s[k..], line);
      CoversToken(s, k, Scan(s[k..], line), gaps, rest, line);
      assert |gaps| == |Scan(s[k..], line).tokens| + 1 by { GapsFit(s[k..], Scan(s[k..], line), gaps, rest); }
      LinesToken(Token(Classify(s[..k]).value, s[..k], line), gaps, Scan(s[k..], line).tokens);
      gaps := [""] + gaps;
    } else if IsSpace(s[0]) {
      hide Classify, Longest;
      var line' := if s[0] == '\n' then line + 1 else line;
      gaps, rest := ScanCovers(s[1..], line');
      CoversSpace(s, Scan(s[1..], line'), gaps, rest);
      LinesSpace(s[0], gaps, Scan(s[1..], line').tokens, line);
      gaps := [[s[0]] + gaps[0]] + gaps[1..];
    } else {
      gaps, rest := [""], s;
    }
  }

  lemma TokenInFront(lexeme: string, woven: string, rest: string)
    ensures lexeme + (woven + rest) == ("" + (lexeme + woven)) + rest
  {
  }

  lemma SpaceInFront(c: char, gaps: seq<string>, tokens: seq<Token>, wider: seq<string>, rest: string)
    requires |gaps| == |tokens| + 1 && AllBlank(gaps) && IsSpace(c)
    requires wider == [[c] + gaps[0]] + gaps[1..]
    ensures |wider| == |gaps| && AllBlank(wider)
    ensures Weave(wider, tokens) == [c] + Weave(gaps, tokens)
    ensures Maximal(gaps, tokens, rest) ==> Maximal(wider, tokens, rest)
  {
    assert wider[1..] == gaps[1..];
    if tokens != [] {
      var s := tokens[0].lexeme + Weave(gaps[1..], tokens[1..]);
      assert ([c] + gaps[0]) + s == [c] + (gaps[0] + s);
    }
  }

  // ---------- from tokens to text ----------

  // A token as the lexer can produce it.
  predicate Classified(t: Token) {
    Classify(t.lexeme) == Some(t.kind)
  }

  ghost predicate AllClassified(tokens: seq<Token>) {
    forall k :: 0 <= k < |tokens| ==> Classified(tokens[k])
  }

  // The same tokens but for the line numbers.
  ghost predicate Same(a: seq<Token>, b: seq<Token>) {
    |a| == |b| && forall k :: 0 <= k < |a| ==> a[k].kind == b[k].kind && a[k].lexeme == b[k].lexeme
  }

  // A lexeme does not run on into what follows it.
  predicate Stands(lexeme: string, rest: string) {
    if IsIdentifier(lexeme) then rest == "" || !IsAlnum(rest[0])
    else if IsInteger(lexeme) then lexeme == "0" || rest == "" || !IsDigit(rest[0])
    else if IsVarchar(lexeme) then rest == "" || rest[0] != '\'' || '\'' !in rest[1..]
    else lexeme == "'" ==> '\'' !in rest
  }

  predicate AllStand(gaps: seq<string>, tokens: seq<Token>)
    requires |gaps| == |tokens| + 1
    decreases |tokens|
  {
    tokens == []
    || (Stands(tokens[0].lexeme, Weave(gaps[1..], tokens[1..])) && AllStand(gaps[1..], tokens[1..]))
  }

  lemma {:induction false} AlnumRunStops(s: string, rest: string)
    requires forall i :: 0 <= i < |s| ==> IsAlnum(s[i])
    ensures AlnumRun(s + rest) == |s| <==> rest == "" || !IsAlnum(rest[0])
    decreases |s|
  {
    if s == "" {
      assert s + rest == rest;
    } else {
      AlnumRunStops(s[1..], rest);
      assert (s + rest)[1..] == s[1..] + rest;
    }
  }

  lemma {:induction false} DigitRunStops(s: string, rest: string)
    requires forall i :: 0 <= i < |s| ==> IsDigit(s[i])
    ensures DigitRun(s + rest) == |s| <==> rest == "" || !IsDigit(rest[0])
    decreases |s|
  {
    if s == "" {
      assert s + rest == rest;
    } else {
      DigitRunStops(s[1..], rest);
      assert (s + rest)[1..] == s[1..] + rest;
    }
  }

  // An opened literal is closed exactly when a quote follows.
  lemma {:induction false} BodyCloses(s: string)
    ensures BodyLength(s) > 0 <==> '\'' in s
    decreases |s|
  {
    if s != "" && s[0] != '\'' {
      BodyCloses(s[1..]);
      assert s == [s[0]] + s[1..];
    }
  }

  lemma {:induction false} BodyStops(s: string, rest: string)
    requires IsBody(s)
    ensures BodyLength(s + rest) == |s| <==> rest == "" || rest[0] != '\'' || '\'' !in rest[1..]
    decreases |s|
  {
    var all := s + rest;
    if s[0] != '\'' {
      BodyStops(s[1..], rest);
      BodyHasQuote(s[1..]);
      assert all[1..] == s[1..] + rest;
      BodyCloses(all[1..]);
    } else if |s| > 1 {
      BodyStops(s[2..], rest);
      BodyHasQuote(s[2..]);
      assert all[2..] == s[2..] + rest;
      BodyCloses(all[2..]);
    } else if rest != "" {
      assert all[1] == rest[0] && all[2..] == rest[1..];
      BodyCloses(rest[1..]);
    }
  }

  lemma {:induction false} BodyHasQuote(s: string)
    requires IsBody(s)
    ensures '\'' in s
    decreases |s|
  {
    if s[0] != '\'' {
      BodyHasQuote(s[1..]);
    }
  }

  lemma IdentifierStands(lexeme: string, rest: string)
    requires IsIdentifier(lexeme)
    ensures ScanLength(lexeme + rest) == |lexeme| <==> Stands(lexeme, rest)
  {
    AlnumRunStops(lexeme[1..], rest);
    assert (lexeme + rest)[1..] == lexeme[1..] + rest;
  }

  lemma VarcharStands(lexeme: string, rest: string)
    requires IsVarchar(lexeme)
    ensures ScanLength(lexeme + rest) == |lexeme| <==> Stands(lexeme, rest)
  {
    BodyStops(lexeme[1..], rest);
    assert (lexeme + rest)[1..] == lexeme[1..] + rest;
  }

  lemma IntegerStands(lexeme: string, rest: string)
    requires IsInteger(lexeme)
    ensures ScanLength(lexeme + rest) == |lexeme| <==> Stands(lexeme, rest)
  {
    if lexeme[0] != '0' {
      DigitRunStops(lexeme[1..], rest);
      assert (lexeme + rest)[1..] == lexeme[1..] + rest;
    }
  }

  lemma ScanStands(lexeme: string, rest: string)
    requires Operator(lexeme).Some? || IsIdentifier(lexeme) || IsVarchar(lexeme) || IsInteger(lexeme)
    ensures ScanLength(lexeme + rest) == |lexeme| <==> Stands(lexeme, rest)
  {
    if IsIdentifier(lexeme) {
      IdentifierStands(lexeme, rest);
    } else if IsVarchar(lexeme) {
      VarcharStands(lexeme, rest);
    } else if IsInteger(lexeme) {
      IntegerStands(lexeme, rest);
    } else {
      OperatorStands(lexeme, rest);
    }
  }

  lemma OperatorStands(lexeme: string, rest: string)
    requires Operator(lexeme).Some?
    ensures ScanLength(lexeme + rest) == |lexeme| <==> Stands(lexeme, rest)
  {
    assert lexeme == [lexeme[0]] && (lexeme + rest)[1..] == rest;
    BodyCloses(rest);
  }

  // A lexeme is read whole exactly when it stands.
  lemma LexemeStandsExactly(lexeme: string, rest: string)
    requires Classify(lexeme).Some?
    ensures lexeme != "" && |lexeme| <= Longest(lexeme + rest, |lexeme + rest|)
    ensures Longest(lexeme + rest, |lexeme + rest|) == |lexeme| <==> Stands(lexeme, rest)
  {
    var s := lexeme + rest;
    assert lexeme != "" && s[..|lexeme|] == lexeme;
    hide Longest, Classify, Stands;
    Accepted(lexeme);
    ScanStands(lexeme, rest);
    ScanIsLongest(s);
    NoneLonger(s, |s|);
  }

  function LineAfter(gap: string, line: nat): nat {
    if gap == "" then line else LineAfter(gap[1..], if gap[0] == '\n' then line + 1 else line)
  }

  lemma {:induction false} SkipBlanks(gap: string, rest: string, line: nat)
    requires Blank(gap)
    ensures Scan(gap + rest, line) == Scan(rest, LineAfter(gap, line))
    decreases |gap|
  {
    if gap == "" {
      assert gap + rest == rest;
    } else {
      SpaceStartsNothing(gap[0]);
      NothingStarts(gap + rest);
      assert (gap + rest)[1..] == gap[1..] + rest;
      SkipBlanks(gap[1..], rest, if gap[0] == '\n' then line + 1 else line);
    }
  }

  // The first token of a text that begins with a lexeme.
  lemma {:induction false} ScanLexeme(t: Token, rest: string, line: nat)
    requires Classified(t)
    ensures var r := Scan(t.lexeme + rest, line);
            if Stands(t.lexeme, rest) then r == Prepend(Token(t.kind, t.lexeme, line), Scan(rest, line))
            else r.tokens != [] && r.tokens[0].lexeme != t.lexeme
  {
    hide Longest, Classify, Stands;
    var s := t.lexeme + rest;
    LexemeStandsExactly(t.lexeme, rest);
    assert s[..|t.lexeme|] == t.lexeme && s[|t.lexeme|..] == rest;
  }

  lemma SameTail(x: seq<Token>, y: seq<Token>)
    requires x != [] && y != []
    ensures Same(x, y) <==> x[0].kind == y[0].kind && x[0].lexeme == y[0].lexeme && Same(x[1..], y[1..])
  {
    if Same(x[1..], y[1..]) && x[0].kind == y[0].kind && x[0].lexeme == y[0].lexeme {
      forall k | 0 <= k < |x| ensures x[k].kind == y[k].kind && x[k].lexeme == y[k].lexeme {
        if k > 0 {
          assert x[k] == x[1..][k - 1] && y[k] == y[1..][k - 1];
        }
      }
    }
  }

  // Tokens written out in any layout are read back exactly when they all stand.
  lemma {:induction false} WeaveScansExactly(gaps: seq<string>, tokens: seq<Token>, line: nat)
    requires |gaps| == |tokens| + 1 && AllBlank(gaps) && AllClassified(tokens)
    ensures var r := Scan(Weave(gaps, tokens), line); (r.ok && Same(tokens, r.tokens)) <==> AllStand(gaps, tokens)
    decreases |tokens|
  {
    hide Classified, IsSpace, Stands, Blank, Classify, Longest;
    if tokens == [] {
      SkipBlanks(gaps[0], "", line);
      assert gaps[0] + "" == gaps[0];
    } else {
      var t, rest := tokens[0], Weave(gaps[1..], tokens[1..]);
      var line' := LineAfter(gaps[0], line);
      SkipBlanks(gaps[0], t.lexeme + rest, line);
      ScanLexeme(t, rest, line');
      WeaveScansExactly(gaps[1..], tokens[1..], line');
      var found := Scan(Weave(gaps, tokens), line).tokens;
      SameTail(tokens, found);
      assert Stands(t.lexeme, rest) ==> found[1..] == Scan(rest, line').tokens;
    }
  }

  // A lexeme that nothing can make longer.
  predicate StandsAlways(lexeme: string) {
    |lexeme| == 1 && Symbol(lexeme[0]).Some? && lexeme[0] != '\''
  }

  // Up to k the tokens are found, but not the one at k, although something can make it longer.
  ghost predicate RunsOn(tokens: seq<Token>, found: seq<Token>, k: nat) {
    k < |tokens| && k < |found| && Same(tokens[..k], found[..k])
    && found[k].lexeme != tokens[k].lexeme && !StandsAlways(tokens[k].lexeme)
  }

  lemma RunsOnLater(tokens: seq<Token>, found: seq<Token>, k: nat)
    requires tokens != [] && found != [] && RunsOn(tokens[1..], found[1..], k)
    requires tokens[0].kind == found[0].kind && tokens[0].lexeme == found[0].lexeme
    ensures RunsOn(tokens, found, k + 1)
  {
    hide Same, StandsAlways;
    assert tokens[..k + 1][1..] == tokens[1..][..k] && found[..k + 1][1..] == found[1..][..k];
    SameTail(tokens[..k + 1], found[..k + 1]);
    assert found[k + 1] == found[1..][k] && tokens[k + 1] == tokens[1..][k];
  }

  lemma RunsOnFirst(tokens: seq<Token>, found: seq<Token>)
    requires tokens != [] && found != []
    requires found[0].lexeme != tokens[0].lexeme && !StandsAlways(tokens[0].lexeme)
    ensures RunsOn(tokens, found, 0)
  {
  }

  // If not all stand, the first one that does not is read as something else, and all before it are read.
  lemma {:induction false} FirstRunsOn(gaps: seq<string>, tokens: seq<Token>, line: nat) returns (k: nat)
    requires |gaps| == |tokens| + 1 && AllBlank(gaps) && AllClassified(tokens) && !AllStand(gaps, tokens)
    ensures RunsOn(tokens, Scan(Weave(gaps, tokens), line).tokens, k)
    decreases |tokens|
  {
    hide Classified, IsSpace, Blank, Classify, Longest, Stands, StandsAlways, RunsOn;
    var t, rest := tokens[0], Weave(gaps[1..], tokens[1..]);
    var line' := LineAfter(gaps[0], line);
    var found := Scan(Weave(gaps, tokens), line).tokens;
    SkipBlanks(gaps[0], t.lexeme + rest, line);
    ScanLexeme(t, rest, line');
    if Stands(t.lexeme, rest) {
      k := FirstRunsOn(gaps[1..], tokens[1..], line');
      assert found[1..] == Scan(rest, line').tokens;
      RunsOnLater(tokens, found, k);
      k := k + 1;
    } else {
      SymbolStands(t.lexeme, rest);
      RunsOnFirst(tokens, found);
      k := 0;
    }
  }

  lemma SymbolStands(lexeme: string, rest: string)
    ensures StandsAlways(lexeme) ==> Stands(lexeme, rest)
  {
    assert |lexeme| == 1 ==> lexeme == [lexeme[0]];
  }

  // ---------- blanks between any two tokens ----------

  // Blanks between any two tokens; before the first and after the last there need be none.
  ghost predicate Spaced(gaps: seq<string>, tokens: seq<Token>)
    requires |gaps| == |tokens| + 1
  {
    AllBlank(gaps) && forall k :: 0 < k < |tokens| ==> gaps[k] != ""
  }

  predicate NoQuotes(tokens: seq<Token>) {
    forall t :: t in tokens ==> '\'' !in t.lexeme
  }

  // Behind a lone quote there is no other quote, alone or in a literal.
  predicate QuotesLast(tokens: seq<Token>)
    decreases |tokens|
  {
    tokens == [] || ((tokens[0].lexeme == "'" ==> NoQuotes(tokens[1..])) && QuotesLast(tokens[1..]))
  }

  lemma {:induction false} WeaveQuotes(gaps: seq<string>, tokens: seq<Token>)
    requires |gaps| == |tokens| + 1 && AllBlank(gaps)
    ensures '\'' !in Weave(gaps, tokens) <==> NoQuotes(tokens)
    decreases |tokens|
  {
    BlankHasNoQuote(gaps[0]);
    if tokens != [] {
      var t := tokens[0];
      WeaveQuotes(gaps[1..], tokens[1..]);
      assert forall u :: u in tokens <==> u == t || u in tokens[1..] by { assert tokens == [t] + tokens[1..]; }
    }
  }

  lemma BlankHasNoQuote(gap: string)
    requires Blank(gap)
    ensures '\'' !in gap
  {
  }

  lemma WeaveStartsBlank(gaps: seq<string>, tokens: seq<Token>)
    requires |gaps| == |tokens| + 1 && Blank(gaps[0]) && (tokens != [] ==> gaps[0] != "")
    ensures var s := Weave(gaps, tokens); s == "" || IsSpace(s[0])
  {
  }

  lemma SpacedTail(gaps: seq<string>, tokens: seq<Token>)
    requires |gaps| == |tokens| + 1 && Spaced(gaps, tokens) && tokens != []
    ensures Spaced(gaps[1..], tokens[1..]) && Blank(gaps[1..][0]) && (tokens[1..] != [] ==> gaps[1..][0] != "")
  {
  }

  // In front of a blank only a lone quote can run on.
  lemma StandsBeforeBlank(lexeme: string, rest: string)
    requires rest == "" || IsSpace(rest[0])
    ensures Stands(lexeme, rest) <==> (lexeme == "'" ==> '\'' !in rest)
  {
    assert !IsVarchar("'");
  }

  lemma {:induction false} SpacedStandsExactly(gaps: seq<string>, tokens: seq<Token>)
    requires |gaps| == |tokens| + 1 && Spaced(gaps, tokens)
    ensures AllStand(gaps, tokens) <==> QuotesLast(tokens)
    decreases |tokens|
  {
    if tokens != [] {
      hide Stands, IsSpace, NoQuotes;
      SpacedTail(gaps, tokens);
      WeaveStartsBlank(gaps[1..], tokens[1..]);
      StandsBeforeBlank(tokens[0].lexeme, Weave(gaps[1..], tokens[1..]));
      WeaveQuotes(gaps[1..], tokens[1..]);
      SpacedStandsExactly(gaps[1..], tokens[1..]);
    }
  }

  // With blanks between any two tokens, they are read back exactly when no quote follows a lone one.
  lemma SpacedScansExactly(gaps: seq<string>, tokens: seq<Token>, line: nat)
    requires |gaps| == |tokens| + 1 && Spaced(gaps, tokens) && AllClassified(tokens)
    ensures var r := Scan(Weave(gaps, tokens), line); (r.ok && Same(tokens, r.tokens)) <==> QuotesLast(tokens)
  {
    hide Classified, AllStand, QuotesLast, Scan, Same;
    WeaveScansExactly(gaps, tokens, line);
    SpacedStandsExactly(gaps, tokens);
  }

  // The shortest case: two lone quotes with a blank between them are read as one literal.
  lemma QuotesMerge(line: nat)
    ensures Classify("'") == Some(Quote)
    ensures Scan("'" + (" " + "'"), line).tokens == [Token(VarcharLiteral, "' '", line)]
  {
    var s := "'" + (" " + "'");
    assert s == "' '" && s[1..] == " '" && s[1..][1..] == "'";
    ScanIsLongest(s);
    assert IsBody("'") && IsBody(" '");
    assert s[..3] == s && s[3..] == "";
  }

  // ---------- one blank between any two tokens ----------

  function Gaps(n: nat): (gaps: seq<string>)
    ensures |gaps| == n + 1
  {
    seq(n + 1, k => if 0 < k < n then " " else "")
  }

  function Spell(tokens: seq<Token>): string {
    Weave(Gaps(|tokens|), tokens)
  }

  lemma GapsAreBlank(n: nat)
    ensures AllBlank(Gaps(n))
  {
  }

  lemma GapsAreSpaced(tokens: seq<Token>)
    ensures Spaced(Gaps(|tokens|), tokens)
  {
  }

  lemma SpellScansExactly(tokens: seq<Token>, line: nat)
    requires AllClassified(tokens)
    ensures var r := Scan(Spell(tokens), line); (r.ok && Same(tokens, r.tokens)) <==> QuotesLast(tokens)
  {
    hide Classified, QuotesLast, Scan, Same, Spaced;
    GapsAreSpaced(tokens);
    SpacedScansExactly(Gaps(|tokens|), tokens, line);
  }

  // ---------- reading, writing and reading again ----------

  lemma {:induction false} ScanGivesLexed(s: string, line: nat)
    ensures forall t :: t in Scan(s, line).tokens ==> Classify(t.lexeme) == Some(t.kind)
    decreases |s|
  {
    hide Classify;
    if s != "" {
      var k := Longest(s, |s|);
      if k > 0 {
        ScanGivesLexed(s[k..], line);
      } else if IsSpace(s[0]) {
        ScanGivesLexed(s[1..], if s[0] == '\n' then line + 1 else line);
      }
    }
  }

  // Without a quote in the text there is none in its tokens.
  lemma {:induction false} ScanFindsNoQuotes(s: string, line: nat)
    requires '\'' !in s
    ensures NoQuotes(Scan(s, line).tokens)
    decreases |s|
  {
    hide Classify;
    if s != "" {
      var k := Longest(s, |s|);
      if k > 0 {
        assert forall c :: c in s[..k] ==> c in s;
        ScanFindsNoQuotes(s[k..], line);
      } else if IsSpace(s[0]) {
        ScanFindsNoQuotes(s[1..], if s[0] == '\n' then line + 1 else line);
      }
    }
  }

  // A lone quote is found only where no other quote follows.
  lemma LoneQuoteIsLast(s: string)
    requires Longest(s, |s|) > 0 && s[..Longest(s, |s|)] == "'"
    ensures '\'' !in s[1..]
  {
    ScanIsLongest(s);
    assert s[0] == s[..Longest(s, |s|)][0];
    BodyCloses(s[1..]);
  }

  lemma {:induction false} ScanQuotesLast(s: string, line: nat)
    ensures QuotesLast(Scan(s, line).tokens)
    decreases |s|
  {
    hide Classify, NoQuotes;
    if s != "" {
      var k := Longest(s, |s|);
      if k > 0 {
        ScanQuotesLast(s[k..], line);
        if s[..k] == "'" {
          LoneQuoteIsLast(s);
          ScanFindsNoQuotes(s[1..], line);
        }
        assert Scan(s, line).tokens[1..] == Scan(s[k..], line).tokens;
      } else if IsSpace(s[0]) {
        ScanQuotesLast(s[1..], if s[0] == '\n' then line + 1 else line);
      }
    }
  }

  // The tokens of any text, accepted or not, are read back from the normal layout; only line numbers change.
  lemma Respelled(text: string, line: nat)
    ensures var ts := Scan(text, line).tokens;
            Scan(Spell(ts), line).ok && Same(ts, Scan(Spell(ts), line).tokens)
  {
    hide QuotesLast, Scan, Same, Classify, Spell;
    ScanGivesLexed(text, line);
    ScanQuotesLast(text, line);
    SpellScansExactly(Scan(text, line).tokens, line);
  }
}
