/**
 * The regular expressions the extractors compile are all of one simple kind:
 * literal characters, [0-9] and [0-9]+. This module gives them a reference
 * meaning (InLang: which strings a pattern denotes) and the matcher Java's
 * Matcher.find() amounts to for them (MatchAt: each [0-9]+ takes every digit
 * there is; FindFrom: the leftmost start). The lemmas show the two agree:
 * find() returns the leftmost span in the language, and the longest one there.
 */
module Patterns {
  import opened Wrappers
  import opened JavaText

  /** Lit(c): the character c; Digit: [0-9]; Digits: [0-9]+ (greedy). */
  datatype Token = Lit(c: char) | Digit | Digits

  type Pattern = seq<Token>

  /** The pattern of a literal phrase. */
  function Literal(w: string): (p: Pattern)
    ensures |p| == |w|
    ensures forall i :: 0 <= i < |w| ==> p[i] == Lit(w[i])
  {
    seq(|w|, i requires 0 <= i < |w| => Lit(w[i]))
  }

  /** Reference semantics: t is one of the strings p denotes. */
  predicate InLang(p: Pattern, t: string)
    decreases |t|
  {
    if p == [] then t == []
    else if t == [] then false
    else match p[0]
      case Lit(c) => t[0] == c && InLang(p[1..], t[1..])
      case Digit => IsDigit(t[0]) && InLang(p[1..], t[1..])
      case Digits => IsDigit(t[0]) && (InLang(p[1..], t[1..]) || InLang(p, t[1..]))
  }

  /**
   * A run of digits is never followed by a token that could itself match a
   * digit. For such a pattern Java's backtracking matcher and the greedy one
   * below take the same path.
   */
  predicate WellFormed(p: Pattern)
  {
    forall j :: 0 <= j < |p| - 1 && p[j] == Digits ==> p[j + 1].Lit? && !IsDigit(p[j + 1].c)
  }

  /** The number of digits in s from index i on, up to the first non-digit. */
  function DigitRun(s: string, i: nat): (k: nat)
    requires i <= |s|
    ensures i + k <= |s|
    ensures forall j :: i <= j < i + k ==> IsDigit(s[j])
    ensures i + k == |s| || !IsDigit(s[i + k])
    decreases |s| - i
  {
    if i < |s| && IsDigit(s[i]) then 1 + DigitRun(s, i + 1) else 0
  }

  /** The end of the match of p that starts at index i of s, if there is one. */
  function MatchAt(p: Pattern, s: string, i: nat): (r: Option<nat>)
    requires i <= |s|
    ensures r.Some? ==> i + |p| <= r.value <= |s|
    decreases |p|
  {
    if p == [] then Some(i)
    else match p[0]
      case Lit(c) => if i < |s| && s[i] == c then MatchAt(p[1..], s, i + 1) else None
      case Digit => if i < |s| && IsDigit(s[i]) then MatchAt(p[1..], s, i + 1) else None
      case Digits =>
        var k := DigitRun(s, i);
        if k == 0 then None else MatchAt(p[1..], s, i + k)
  }

  /** Matcher.find() from index i on: the first start with a match, and that match's end. */
  function FindFrom(p: Pattern, s: string, i: nat): (r: Option<(nat, nat)>)
    requires i <= |s|
    ensures r.Some? ==> i <= r.value.0 <= |s| && MatchAt(p, s, r.value.0) == Some(r.value.1)
    ensures r.Some? ==> forall j :: i <= j < r.value.0 ==> MatchAt(p, s, j).None?
    ensures r.None? ==> forall j :: i <= j <= |s| ==> MatchAt(p, s, j).None?
    decreases |s| - i
  {
    match MatchAt(p, s, i)
    case Some(e) => Some((i, e))
    case None => if i == |s| then None else FindFrom(p, s, i + 1)
  }

  function Find(p: Pattern, s: string): Option<(nat, nat)>
  {
    FindFrom(p, s, 0)
  }

  /** s[j..e] is a string of the pattern's language. */
  ghost predicate Spans(p: Pattern, s: string, j: nat, e: nat)
  {
    j <= e <= |s| && InLang(p, s[j..e])
  }

  /** The span a regex search reports: no span starts earlier, none from j ends later. */
  ghost predicate LeftmostLongest(p: Pattern, s: string, j: nat, e: nat)
  {
    && Spans(p, s, j, e)
    && (forall j0: nat, e0: nat :: Spans(p, s, j0, e0) ==> j <= j0)
    && (forall e0: nat :: Spans(p, s, j, e0) ==> e0 <= e)
  }

  // ---------------------------------------------------------------- lemmas

  lemma {:induction false} DigitsPrefix(p: Pattern, t: string, k: nat)
    requires p != [] && p[0] == Digits
    requires 1 <= k <= |t| && AllDigits(t[..k]) && InLang(p[1..], t[k..])
    ensures InLang(p, t)
    decreases k
  {
    assert IsDigit(t[..k][0]);
    if k > 1 {
      var t1 := t[1..];
      assert t1[..k - 1] == t[1..k];
      var u := t1[..k - 1];
      forall i | 0 <= i < |u| ensures IsDigit(u[i]) { assert u[i] == t[..k][i + 1]; }
      assert t1[k - 1..] == t[k..];
      DigitsPrefix(p, t1, k - 1);
    }
  }

  lemma {:induction false} DigitsSplit(p: Pattern, t: string) returns (k: nat)
    requires p != [] && p[0] == Digits && InLang(p, t)
    ensures 1 <= k <= |t| && AllDigits(t[..k]) && InLang(p[1..], t[k..])
    decreases |t|
  {
    if InLang(p[1..], t[1..]) {
      k := 1;
    } else {
      var k' := DigitsSplit(p, t[1..]);
      k := k' + 1;
      assert t[k..] == t[1..][k'..];
      forall i | 0 <= i < k ensures IsDigit(t[..k][i]) {
        if i > 0 { assert t[..k][i] == t[1..][..k'][i - 1]; }
      }
    }
  }

  lemma EmptyNotInLang(p: Pattern)
    requires p != []
    ensures !InLang(p, [])
  {
  }

  /** Every span the greedy matcher reports belongs to the language. */
  lemma {:induction false} MatchSound(p: Pattern, s: string, i: nat)
    requires i <= |s| && MatchAt(p, s, i).Some?
    ensures InLang(p, s[i..MatchAt(p, s, i).value])
    decreases |p|
  {
    var e := MatchAt(p, s, i).value;
    var t := s[i..e];
    if p != [] {
      match p[0]
      case Lit(c) =>
        MatchSound(p[1..], s, i + 1);
        assert t[1..] == s[i + 1..e];
      case Digit =>
        MatchSound(p[1..], s, i + 1);
        assert t[1..] == s[i + 1..e];
      case Digits =>
        var k := DigitRun(s, i);
        MatchSound(p[1..], s, i + k);
        DigitRunPrefix(p, s, i, k, e);
    }
  }

  /** A digit run followed by a span of the rest of the pattern is a span of the pattern. */
  lemma DigitRunPrefix(p: Pattern, s: string, i: nat, k: nat, e: nat)
    requires p != [] && p[0] == Digits && 1 <= k
    requires i + k <= e <= |s| && forall j :: i <= j < i + k ==> IsDigit(s[j])
    requires InLang(p[1..], s[i + k..e])
    ensures InLang(p, s[i..e])
  {
    var t := s[i..e];
    assert t[k..] == s[i + k..e];
    assert AllDigits(t[..k]) by {
      forall j | 0 <= j < k ensures IsDigit(t[..k][j]) { assert t[..k][j] == s[i + j]; }
    }
    DigitsPrefix(p, t, k);
  }

  /** For a well-formed pattern the greedy matcher finds a span wherever one exists, and the longest. */
  lemma {:induction false} MatchComplete(p: Pattern, s: string, i: nat, e: nat)
    requires WellFormed(p) && i <= e <= |s| && InLang(p, s[i..e])
    ensures MatchAt(p, s, i).Some? && e <= MatchAt(p, s, i).value
    decreases |p|
  {
    var t := s[i..e];
    if p != [] {
      assert t != [];
      assert WellFormed(p[1..]) by {
        forall j | 0 <= j < |p[1..]| - 1 && p[1..][j] == Digits
          ensures p[1..][j + 1].Lit? && !IsDigit(p[1..][j + 1].c)
        {
          assert p[j + 1] == Digits;
        }
      }
      match p[0]
      case Lit(c) =>
        assert t[1..] == s[i + 1..e];
        MatchComplete(p[1..], s, i + 1, e);
      case Digit =>
        assert t[1..] == s[i + 1..e];
        MatchComplete(p[1..], s, i + 1, e);
      case Digits =>
        var k := DigitsSplit(p, t);
        var m := DigitRun(s, i);
        assert m >= k;
        assert t[k..] == s[i + k..e];
        if p[1..] == [] {
          assert t[k..] == [];
        } else {
          assert p[1].Lit? && !IsDigit(p[1].c);
          EmptyNotInLang(p[1..]);
          assert t[k..] != [];
          assert s[i + k] == p[1].c;
          assert m == k;
          MatchComplete(p[1..], s, i + k, e);
        }
    }
  }

  /** What Find returns, stated through the reference semantics alone. */
  lemma FindSpec(p: Pattern, s: string)
    requires WellFormed(p)
    ensures Find(p, s).None? <==> forall j: nat, e: nat :: !Spans(p, s, j, e)
    ensures Find(p, s).Some? ==> LeftmostLongest(p, s, Find(p, s).value.0, Find(p, s).value.1)
  {
    var r := Find(p, s);
    if r.None? {
      forall j: nat, e: nat ensures !Spans(p, s, j, e) {
        if Spans(p, s, j, e) { MatchComplete(p, s, j, e); }
      }
    } else {
      var (st, en) := r.value;
      MatchSound(p, s, st);
      assert Spans(p, s, st, en);
      forall j0: nat, e0: nat | Spans(p, s, j0, e0) ensures st <= j0 {
        MatchComplete(p, s, j0, e0);
      }
      forall e0: nat | Spans(p, s, st, e0) ensures e0 <= en {
        MatchComplete(p, s, st, e0);
      }
    }
  }

  // ---------------------------------------------------------------- shapes

  /** A literal prefix consumes exactly its own characters. */
  lemma {:induction false} LiteralPrefix(w: string, q: Pattern, t: string)
    ensures InLang(Literal(w) + q, t) <==> |w| <= |t| && t[..|w|] == w && InLang(q, t[|w|..])
    decreases |w|
  {
    var p := Literal(w) + q;
    if w == [] {
      assert p == q && t[..0] == w && t[0..] == t;
    } else {
      assert p[0] == Lit(w[0]);
      assert p[1..] == Literal(w[1..]) + q;
      if t != [] {
        LiteralPrefix(w[1..], q, t[1..]);
        if |w| <= |t| {
          assert t[1..][..|w| - 1] == t[1..|w|];
          assert t[1..][|w| - 1..] == t[|w|..];
          assert t[..|w|] == [t[0]] + t[1..|w|];
          assert w == [w[0]] + w[1..];
        }
      }
    }
  }

  lemma LiteralExact(w: string, t: string)
    ensures InLang(Literal(w), t) <==> t == w
  {
    LiteralPrefix(w, [], t);
    assert Literal(w) + [] == Literal(w);
    if |w| <= |t| && t[..|w|] == w && t[|w|..] == [] {
      assert t == t[..|w|];
    }
  }

  /** A closing literal is the last character. */
  lemma {:induction false} ClosingLiteral(q: Pattern, c: char, t: string)
    requires InLang(q + [Lit(c)], t)
    ensures |t| >= 1 && t[|t| - 1] == c && InLang(q, t[..|t| - 1])
    decreases |t|
  {
    var p := q + [Lit(c)];
    assert t != [];
    if q == [] {
      assert p == [Lit(c)];
      assert t[1..] == [];
      assert t[..|t| - 1] == [];
    } else {
      assert p[0] == q[0];
      assert p[1..] == q[1..] + [Lit(c)];
      var t' := t[..|t| - 1];
      match q[0]
      case Lit(d) =>
        ClosingLiteral(q[1..], c, t[1..]);
        assert t'[1..] == t[1..][..|t[1..]| - 1];
      case Digit =>
        ClosingLiteral(q[1..], c, t[1..]);
        assert t'[1..] == t[1..][..|t[1..]| - 1];
      case Digits =>
        if InLang(p[1..], t[1..]) {
          ClosingLiteral(q[1..], c, t[1..]);
        } else {
          ClosingLiteral(q, c, t[1..]);
        }
        assert t'[1..] == t[1..][..|t[1..]| - 1];
        assert t' != [];
    }
  }

  /** Matching a literal prefix is comparing it with the text. */
  lemma {:induction false} MatchAfterLiteral(w: string, q: Pattern, s: string, i: nat)
    requires i <= |s|
    ensures MatchAt(Literal(w) + q, s, i) == if FoundAt(s, w, i) then MatchAt(q, s, i + |w|) else None
    decreases |w|
  {
    var p := Literal(w) + q;
    if w == [] {
      assert p == q;
    } else {
      assert p[0] == Lit(w[0]);
      assert p[1..] == Literal(w[1..]) + q;
      if i < |s| && s[i] == w[0] {
        MatchAfterLiteral(w[1..], q, s, i + 1);
        if i + |w| <= |s| {
          assert s[i..i + |w|] == [s[i]] + s[i + 1..i + |w|];
          assert w == [w[0]] + w[1..];
        }
      } else {
        if i + |w| <= |s| { assert s[i..i + |w|][0] == s[i]; }
      }
    }
  }

  /** No search for a pattern that opens with w succeeds where w does not occur. */
  lemma {:induction false} NoMatchWithoutLiteral(w: string, q: Pattern, s: string, i: nat)
    requires i <= |s|
    requires forall j: nat :: i <= j ==> !FoundAt(s, w, j)
    ensures FindFrom(Literal(w) + q, s, i).None?
    decreases |s| - i
  {
    MatchAfterLiteral(w, q, s, i);
    if i < |s| { NoMatchWithoutLiteral(w, q, s, i + 1); }
  }
}
