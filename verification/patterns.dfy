/**
 The patterns that src/compiler/tokenizer.c hands to regcomp, with the meaning of regular expressions: the
 classifiers of the lexer accept exactly the strings that their patterns match.
 */
module Patterns {
  import opened Tokenizer

  // [lo-hi], [^c], ab, a|b, a*
  datatype Pattern =
    | Range(lo: char, hi: char)
    | Except(c: char)
    | Then(first: Pattern, second: Pattern)
    | Or(left: Pattern, right: Pattern)
    | Many(item: Pattern)

  // The whole string is matched, as between ^ and $.
  ghost predicate Matches(p: Pattern, s: string)
    decreases p, |s|
  {
    match p
    case Range(lo, hi) => |s| == 1 && lo <= s[0] <= hi
    case Except(c) => |s| == 1 && s[0] != c
    case Then(first, second) => exists i :: 0 <= i <= |s| && Matches(first, s[..i]) && Matches(second, s[i..])
    case Or(left, right) => Matches(left, s) || Matches(right, s)
    case Many(item) => s == "" || exists i :: 0 < i <= |s| && Matches(item, s[..i]) && Matches(p, s[i..])
  }

  function One(c: char): Pattern {
    Range(c, c)
  }

  function Letters(): Pattern {
    Or(Range('a', 'z'), Range('A', 'Z'))
  }

  // ^[a-zA-Z_]([a-zA-Z0-9])*$
  function IdentifierPattern(): Pattern {
    Then(Or(Letters(), One('_')), Many(Or(Letters(), Range('0', '9'))))
  }

  // ^(0|[1-9][0-9]*)$
  function IntegerPattern(): Pattern {
    Or(One('0'), Then(Range('1', '9'), Many(Range('0', '9'))))
  }

  // ([^']|'')
  function BodyItem(): Pattern {
    Or(Except('\''), Then(One('\''), One('\'')))
  }

  // ^'([^']|'')*'$
  function VarcharPattern(): Pattern {
    Then(One('\''), Then(Many(BodyItem()), One('\'')))
  }

  // Matches exactly the single characters of a class.
  ghost predicate MatchesClass(p: Pattern, isIn: char -> bool) {
    forall t :: Matches(p, t) <==> |t| == 1 && isIn(t[0])
  }

  lemma ThenAt(first: Pattern, second: Pattern, s: string, i: nat)
    requires i <= |s| && Matches(first, s[..i]) && Matches(second, s[i..])
    ensures Matches(Then(first, second), s)
  {
  }

  lemma ManyAt(item: Pattern, s: string, i: nat)
    requires 0 < i <= |s| && Matches(item, s[..i]) && Matches(Many(item), s[i..])
    ensures Matches(Many(item), s)
  {
  }

  lemma {:induction false} ManyOfClass(p: Pattern, isIn: char -> bool, s: string)
    requires MatchesClass(p, isIn)
    ensures Matches(Many(p), s) <==> forall i :: 0 <= i < |s| ==> isIn(s[i])
    decreases |s|
  {
    if s != "" {
      ManyOfClass(p, isIn, s[1..]);
      assert s == s[..1] + s[1..] && s[..1][0] == s[0];
      if Matches(Many(p), s) {
        var i :| 0 < i <= |s| && Matches(p, s[..i]) && Matches(Many(p), s[i..]);
        assert |s[..i]| == 1;
      }
      if forall i :: 0 <= i < |s| ==> isIn(s[i]) {
        assert Matches(p, s[..1]);
        ManyAt(p, s, 1);
      }
    }
  }

  lemma {:induction false} ClassThenMany(p: Pattern, isIn: char -> bool, q: Pattern, isIn': char -> bool, s: string)
    requires MatchesClass(p, isIn) && MatchesClass(q, isIn')
    ensures Matches(Then(p, Many(q)), s) <==>
              s != "" && isIn(s[0]) && forall i :: 1 <= i < |s| ==> isIn'(s[i])
  {
    if s != "" {
      ManyOfClass(q, isIn', s[1..]);
      assert s[..1][0] == s[0];
      assert forall i :: 1 <= i < |s| ==> s[i] == s[1..][i - 1];
      if isIn(s[0]) && forall i :: 1 <= i < |s| ==> isIn'(s[i]) {
        ThenAt(p, Many(q), s, 1);
      }
    }
    if Matches(Then(p, Many(q)), s) {
      var i :| 0 <= i <= |s| && Matches(p, s[..i]) && Matches(Many(q), s[i..]);
      assert |s[..i]| == 1 && s[1..] == s[i..];
    }
  }

  lemma {:induction false} IdentifierIsPattern(s: string)
    ensures IsIdentifier(s) <==> Matches(IdentifierPattern(), s)
  {
    assert MatchesClass(Letters(), IsLetter);
    assert MatchesClass(One('_'), c => c == '_');
    ClassThenMany(Or(Letters(), One('_')), c => IsLetter(c) || c == '_', Or(Letters(), Range('0', '9')), IsAlnum, s);
  }

  lemma {:induction false} IntegerIsPattern(s: string)
    ensures IsInteger(s) <==> Matches(IntegerPattern(), s)
  {
    ClassThenMany(Range('1', '9'), c => '1' <= c <= '9', Range('0', '9'), IsDigit, s);
  }

  lemma {:induction false} QuotePair(t: string)
    ensures Matches(BodyItem(), t) <==> (|t| == 1 && t[0] != '\'') || t == "''"
  {
    var q := One('\'');
    if t == "''" {
      assert t[..1] == "'" && t[1..] == "'";
      ThenAt(q, q, t, 1);
    }
    if Matches(Then(q, q), t) {
      var i :| 0 <= i <= |t| && Matches(q, t[..i]) && Matches(q, t[i..]);
      assert t[..i] == ['\''] && t[i..] == ['\''];
      assert t == t[..i] + t[i..];
    }
  }

  // What follows the opening quote.
  function BodyPattern(): Pattern {
    Then(Many(BodyItem()), One('\''))
  }

  // Where the items end.
  lemma {:induction false} BodySplit(s: string) returns (i: nat)
    requires Matches(BodyPattern(), s)
    ensures i <= |s| && Matches(Many(BodyItem()), s[..i]) && Matches(One('\''), s[i..])
  {
    hide BodyItem;
    var items, q := Many(BodyItem()), One('\'');
    i :| 0 <= i <= |s| && Matches(items, s[..i]) && Matches(q, s[i..]);
  }

  lemma {:induction false} BodyGrows(s: string, n: nat)
    requires 0 < n <= |s| && Matches(BodyItem(), s[..n]) && Matches(BodyPattern(), s[n..])
    ensures Matches(BodyPattern(), s)
  {
    hide Matches, BodyItem;
    var i := BodySplit(s[n..]);
    var m := s[..n + i];
    assert m[..n] == s[..n] && m[n..] == s[n..][..i] && s[n + i..] == s[n..][i..];
    ManyAt(BodyItem(), m, n);
    ThenAt(Many(BodyItem()), One('\''), s, n + i);
  }

  lemma {:induction false} BodyMatches(s: string)
    requires IsBody(s)
    ensures Matches(BodyPattern(), s)
    decreases |s|
  {
    if s[0] != '\'' {
      BodyMatches(s[1..]);
      QuotePair(s[..1]);
      BodyGrows(s, 1);
    } else if |s| == 1 {
      assert s[..0] == "" && s[0..] == s;
      ThenAt(Many(BodyItem()), One('\''), s, 0);
    } else {
      BodyMatches(s[2..]);
      QuotePair(s[..2]);
      BodyGrows(s, 2);
    }
  }

  // Where the first of the items ends.
  lemma {:induction false} ManySplit(item: Pattern, s: string) returns (i: nat)
    requires s != "" && Matches(Many(item), s)
    ensures 0 < i <= |s| && Matches(item, s[..i]) && Matches(Many(item), s[i..])
  {
    i :| 0 < i <= |s| && Matches(item, s[..i]) && Matches(Many(item), s[i..]);
  }

  lemma IsItem(p: string)
    requires Matches(BodyItem(), p)
    ensures (|p| == 1 && p[0] != '\'') || (|p| == 2 && p[0] == p[1] == '\'')
  {
    QuotePair(p);
  }

  lemma ItemInFront(s: string, n: nat)
    requires n <= |s| && Matches(BodyItem(), s[..n]) && IsBody(s[n..])
    ensures IsBody(s)
  {
    hide Matches, BodyItem;
    IsItem(s[..n]);
    assert n == 1 || n == 2;
    assert s[..n][0] == s[0];
    if n == 2 {
      assert s[..n][1] == s[1];
    }
  }

  lemma {:induction false} MatchIsBody(s: string, i: nat)
    requires i <= |s| && Matches(Many(BodyItem()), s[..i]) && s[i..] == "'"
    ensures IsBody(s)
    decreases i
  {
    hide Matches, BodyItem, IsBody;
    if i > 0 {
      var j := ManySplit(BodyItem(), s[..i]);
      assert s[..i][..j] == s[..j] && s[..i][j..] == s[j..][..i - j] && s[i..] == s[j..][i - j..];
      MatchIsBody(s[j..], i - j);
      ItemInFront(s, j);
    } else {
      assert s == "'";
      assert IsBody("'") by { LoneQuote(); }
    }
  }

  lemma LoneQuote()
    ensures IsBody("'")
  {
  }

  lemma {:induction false} VarcharIsPattern(s: string)
    ensures IsVarchar(s) <==> Matches(VarcharPattern(), s)
  {
    var q, body := One('\''), BodyPattern();
    if IsVarchar(s) {
      BodyMatches(s[1..]);
      assert s[..1][0] == s[0];
      ThenAt(q, body, s, 1);
    }
    if Matches(VarcharPattern(), s) {
      var i :| 0 <= i <= |s| && Matches(q, s[..i]) && Matches(body, s[i..]);
      assert i == 1 && s[..1][0] == s[0];
      var j := BodySplit(s[1..]);
      assert s[1..][j..] == ['\''];
      MatchIsBody(s[1..], j);
    }
  }

  // The characters that are a text for themselves: blanks, and what a token can consist of.
  lemma OneCharacter(c: char)
    ensures Scan([c], 1).ok <==>
              c in [' ', '\n', '\t', '\r', '_', '*', '(', ')', '\'', ';', ',']
              || 'a' <= c <= 'z' || 'A' <= c <= 'Z' || '0' <= c <= '9'
  {
    hide Classify;
    Accepted([c]);
    assert [c][..1] == [c];
    assert Longest([c], 1) == if Classify([c]).Some? then 1 else 0;
    assert Scan([c][1..], 1).ok && Scan([c][1..], 2).ok;
  }
}
