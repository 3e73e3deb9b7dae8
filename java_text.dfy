/**
 * The parts of java.lang.String (and of java.util.StringTokenizer, which
 * Runtime.exec(String) uses to cut a command line into arguments) that the
 * ping utility relies on, over Dafny strings. A Java method that throws
 * (substring with a bad bound) returns None here.
 */
module JavaText {
  import opened Wrappers

  predicate IsDigit(c: char) { '0' <= c <= '9' }

  predicate AllDigits(s: string) { forall i :: 0 <= i < |s| ==> IsDigit(s[i]) }

  /** The default delimiter set of StringTokenizer: space, tab, newline, carriage return, form feed. */
  predicate IsWhitespace(c: char) { c == ' ' || c == '\t' || c == '\n' || c == '\r' || c == '\U{C}' }

  predicate NoWhitespace(s: string) { forall i :: 0 <= i < |s| ==> !IsWhitespace(s[i]) }

  /** w occurs in s starting at index j. */
  predicate FoundAt(s: string, w: string, j: nat) { j + |w| <= |s| && s[j..j + |w|] == w }

  ghost predicate Contains(s: string, w: string) { exists j: nat :: FoundAt(s, w, j) }

  lemma FoundInSuffix(s: string, w: string, k: nat, j: nat)
    requires k <= |s|
    ensures FoundAt(s[k..], w, j) <==> FoundAt(s, w, k + j)
  {
    if j + |w| <= |s| - k {
      assert s[k..][j..j + |w|] == s[k + j..k + j + |w|];
    }
  }

  // ---------------------------------------------------------------- indexOf

  function IndexOfFrom(s: string, w: string, i: nat): (r: int)
    ensures r == -1 || (i <= r && FoundAt(s, w, r))
    ensures r == -1 <==> forall j: nat :: i <= j ==> !FoundAt(s, w, j)
    ensures r != -1 ==> forall j: nat :: i <= j < r ==> !FoundAt(s, w, j)
    decreases |s| - i
  {
    if i + |w| > |s| then -1
    else if s[i..i + |w|] == w then i
    else IndexOfFrom(s, w, i + 1)
  }

  /** String.indexOf(String): the first index at which w occurs, or -1. */
  function IndexOf(s: string, w: string): int
  {
    IndexOfFrom(s, w, 0)
  }

  lemma IndexOfFirst(s: string, w: string, k: nat)
    requires FoundAt(s, w, k)
    requires forall j: nat :: j < k ==> !FoundAt(s, w, j)
    ensures IndexOf(s, w) == k
  {
  }

  lemma IndexOfAbsent(s: string, w: string)
    requires !Contains(s, w)
    ensures IndexOf(s, w) == -1
  {
  }

  // ---------------------------------------------------------------- substring

  /** String.substring(begin): throws unless 0 <= begin <= length. */
  function SubstringFrom(s: string, begin: int): (r: Option<string>)
    ensures r.Some? <==> 0 <= begin <= |s|
    ensures r.Some? ==> r.value == s[begin..]
  {
    if 0 <= begin <= |s| then Some(s[begin..]) else None
  }

  /** String.substring(begin, end): throws unless 0 <= begin <= end <= length. */
  function Substring(s: string, begin: int, end: int): (r: Option<string>)
    ensures r.Some? <==> 0 <= begin <= end <= |s|
    ensures r.Some? ==> r.value == s[begin..end]
  {
    if 0 <= begin <= end <= |s| then Some(s[begin..end]) else None
  }

  // ---------------------------------------------------------------- split

  function FirstIndexOfChar(s: string, c: char): (k: nat)
    requires c in s
    ensures k < |s| && s[k] == c && c !in s[..k]
  {
    if s[0] == c then 0
    else
      assert c in s[1..];
      var k := 1 + FirstIndexOfChar(s[1..], c);
      assert s[..k] == [s[0]] + s[1..][..k - 1];
      k
  }

  /** All pieces of s between occurrences of c, empty ones included. */
  function SplitOnChar(s: string, c: char): (r: seq<string>)
    ensures |r| >= 1
    decreases |s|
  {
    if c in s then
      var k := FirstIndexOfChar(s, c);
      [s[..k]] + SplitOnChar(s[k + 1..], c)
    else [s]
  }

  function Join(parts: seq<string>, c: char): string
    decreases |parts|
  {
    if |parts| <= 1 then (if parts == [] then "" else parts[0])
    else parts[0] + [c] + Join(parts[1..], c)
  }

  lemma {:induction false} SplitPieces(s: string, c: char)
    ensures forall i :: 0 <= i < |SplitOnChar(s, c)| ==> c !in SplitOnChar(s, c)[i]
    ensures Join(SplitOnChar(s, c), c) == s
    decreases |s|
  {
    if c in s {
      var k := FirstIndexOfChar(s, c);
      SplitPieces(s[k + 1..], c);
      assert s == s[..k] + [c] + s[k + 1..];
    }
  }

  lemma FirstIndexAppend(x: string, c: char, y: string)
    ensures c in x + [c] + y
    ensures FirstIndexOfChar(x + [c] + y, c) == if c in x then FirstIndexOfChar(x, c) else |x|
  {
    var s := x + [c] + y;
    assert s[|x|] == c;
    var k := FirstIndexOfChar(s, c);
    if c in x {
      var kx := FirstIndexOfChar(x, c);
      assert s[kx] == c;
      assert s[..kx] == x[..kx];
    } else {
      assert s[..|x|] == x;
    }
  }

  lemma SliceAround(x: string, m: string, k: nat)
    requires k < |x|
    ensures (x + m)[..k] == x[..k]
    ensures (x + m)[k + 1..] == x[k + 1..] + m
  {
  }

  lemma {:induction false} SplitConcat(x: string, c: char, y: string)
    ensures SplitOnChar(x + [c] + y, c) == SplitOnChar(x, c) + SplitOnChar(y, c)
    decreases |x|
  {
    var s := x + [c] + y;
    FirstIndexAppend(x, c, y);
    var k := FirstIndexOfChar(s, c);
    if c in x {
      var head, x' := x[..k], x[k + 1..];
      SliceAround(x, [c] + y, k);
      assert s == x + ([c] + y);
      assert s[k + 1..] == x' + [c] + y;
      assert SplitOnChar(s, c) == [head] + SplitOnChar(x' + [c] + y, c);
      assert SplitOnChar(x, c) == [head] + SplitOnChar(x', c);
      SplitConcat(x', c, y);
      ConcatAssoc([head], SplitOnChar(x', c), SplitOnChar(y, c));
    } else {
      assert s[..k] == x && s[k + 1..] == y;
    }
  }

  lemma ConcatAssoc<T>(a: seq<T>, b: seq<T>, c: seq<T>)
    ensures a + (b + c) == a + b + c
  {
  }

  lemma SplitNoSeparator(w: string, c: char)
    requires c !in w
    ensures SplitOnChar(w, c) == [w]
  {
  }

  function DropTrailingEmpty(parts: seq<string>): (r: seq<string>)
    ensures |r| <= |parts| && r == parts[..|r|]
    ensures r == [] || r[|r| - 1] != ""
    ensures forall i :: |r| <= i < |parts| ==> parts[i] == ""
  {
    if parts == [] then []
    else if parts[|parts| - 1] == "" then DropTrailingEmpty(parts[..|parts| - 1])
    else parts
  }

  /**
   * String.split(String.valueOf(c)) for a character c that is not special in a
   * regular expression: split with limit 0, which drops trailing empty pieces,
   * and which gives back the whole string when c does not occur.
   */
  function JavaSplit(s: string, c: char): (r: seq<string>)
    ensures forall i :: 0 <= i < |r| ==> c !in r[i]
  {
    SplitPieces(s, c);
    if c in s then DropTrailingEmpty(SplitOnChar(s, c)) else [s]
  }

  lemma SplitCons(a: string, c: char, t: string, rest: seq<string>)
    requires c !in a && SplitOnChar(t, c) == rest
    ensures SplitOnChar(a + [c] + t, c) == [a] + rest
  {
    SplitConcat(a, c, t);
    SplitNoSeparator(a, c);
  }

  lemma DropTrailingNonEmpty(parts: seq<string>)
    requires parts != [] && parts[|parts| - 1] != ""
    ensures DropTrailingEmpty(parts) == parts
  {
  }

  lemma JavaSplitFour(a: string, b: string, d: string, e: string, c: char)
    requires c !in a && c !in b && c !in d && c !in e
    requires e != ""
    ensures JavaSplit(a + [c] + (b + [c] + (d + [c] + e)), c) == [a, b, d, e]
  {
    var t3 := d + [c] + e;
    var t2 := b + [c] + t3;
    var t1 := a + [c] + t2;
    SplitNoSeparator(e, c);
    SplitCons(d, c, e, [e]);
    SplitCons(b, c, t3, [d, e]);
    SplitCons(a, c, t2, [b, d, e]);
    assert SplitOnChar(t1, c) == [a, b, d, e];
    DropTrailingNonEmpty([a, b, d, e]);
    assert t1[|a|] == c;
  }

  // ---------------------------------------------------------------- replace

  /** String.replace(target, replacement): every non-overlapping occurrence, left to right. */
  function ReplaceAll(s: string, target: string, replacement: string): string
    requires target != []
    decreases |s|
  {
    if s == [] then []
    else if FoundAt(s, target, 0) then replacement + ReplaceAll(s[|target|..], target, replacement)
    else [s[0]] + ReplaceAll(s[1..], target, replacement)
  }

  lemma {:induction false} ReplaceSkips(x: string, y: string, target: string, replacement: string)
    requires target != [] && target[0] !in x
    ensures ReplaceAll(x + y, target, replacement) == x + ReplaceAll(y, target, replacement)
    decreases |x|
  {
    if x == [] {
      assert x + y == y;
    } else {
      var s := x + y;
      assert s[0] == x[0];
      assert !FoundAt(s, target, 0);
      assert s[1..] == x[1..] + y;
      assert target[0] !in x[1..];
      ReplaceSkips(x[1..], y, target, replacement);
      calc {
        ReplaceAll(s, target, replacement);
        [s[0]] + ReplaceAll(s[1..], target, replacement);
        [x[0]] + (x[1..] + ReplaceAll(y, target, replacement));
        { assert [x[0]] + x[1..] == x; }
        x + ReplaceAll(y, target, replacement);
      }
    }
  }

  lemma ReplaceAbsentFirst(x: string, target: string, replacement: string)
    requires target != [] && target[0] !in x
    ensures ReplaceAll(x, target, replacement) == x
  {
    ReplaceSkips(x, [], target, replacement);
    assert x + [] == x;
  }

  /** Removing every c leaves no c behind. */
  lemma {:induction false} ReplaceRemovesChar(s: string, c: char)
    ensures c !in ReplaceAll(s, [c], "")
    decreases |s|
  {
    if s != [] {
      if FoundAt(s, [c], 0) {
        ReplaceRemovesChar(s[1..], c);
      } else {
        assert s[0] != c by { assert s[0..1] == [s[0]]; }
        ReplaceRemovesChar(s[1..], c);
      }
    }
  }

  lemma ReplaceAtStart(target: string, tail: string, replacement: string)
    requires target != []
    ensures ReplaceAll(target + tail, target, replacement) == replacement + ReplaceAll(tail, target, replacement)
  {
    var w := target + tail;
    assert FoundAt(w, target, 0) by { assert w[..|target|] == target; }
    assert w[|target|..] == tail;
  }

  /**
   * Replacing the one occurrence of target in x + target + tail, when the first
   * character of target occurs in neither x nor tail (as " ms" in "1.2 ms\n").
   */
  lemma ReplaceSingle(x: string, target: string, tail: string, replacement: string)
    requires target != [] && target[0] !in x && target[0] !in tail
    ensures ReplaceAll(x + (target + tail), target, replacement) == x + replacement + tail
  {
    ReplaceSkips(x, target + tail, target, replacement);
    ReplaceAtStart(target, tail, replacement);
    ReplaceAbsentFirst(tail, target, replacement);
  }

  // ---------------------------------------------------------------- numbers

  function DigitValue(c: char): nat
    requires IsDigit(c)
  {
    c as int - '0' as int
  }

  function DigitChar(d: nat): (c: char)
    requires d < 10
    ensures IsDigit(c) && DigitValue(c) == d
  {
    ('0' as int + d) as char
  }

  /** The number a string of decimal digits denotes. */
  function DecimalValue(t: string): nat
    requires AllDigits(t)
    decreases |t|
  {
    if t == [] then 0 else 10 * DecimalValue(t[..|t| - 1]) + DigitValue(t[|t| - 1])
  }

  /** Long.toString for a non-negative value. */
  function NatToString(n: nat): (r: string)
    ensures |r| >= 1 && AllDigits(r)
  {
    if n < 10 then [DigitChar(n)] else NatToString(n / 10) + [DigitChar(n % 10)]
  }

  /** Integer.toString: an optional minus sign, then the digits. */
  function IntToString(i: int): (r: string)
    ensures NoWhitespace(r) && r != []
  {
    if i < 0 then "-" + NatToString(-i) else NatToString(i)
  }

  /** A canonical decimal numeral: digits only, and no leading zero unless the numeral is "0". */
  predicate Canonical(t: string)
  {
    |t| >= 1 && AllDigits(t) && (t[0] == '0' ==> |t| == 1)
  }

  lemma {:induction false} NatToStringRoundTrip(n: nat)
    ensures Canonical(NatToString(n))
    ensures DecimalValue(NatToString(n)) == n
  {
    var r := NatToString(n);
    if n >= 10 {
      NatToStringRoundTrip(n / 10);
      var p := NatToString(n / 10);
      assert r == p + [DigitChar(n % 10)];
      assert r[..|r| - 1] == p;
      assert r[0] == p[0];
    }
  }

  /**
   * Integer.toString reads back as its argument: a canonical numeral of the
   * value for i >= 0, and "-" followed by a canonical numeral of -i for i < 0.
   */
  lemma IntToStringMeaning(i: int)
    ensures var r := IntToString(i);
      && (i >= 0 ==> Canonical(r) && DecimalValue(r) == i)
      && (i < 0 ==> |r| >= 2 && r[0] == '-' && Canonical(r[1..]) && DecimalValue(r[1..]) == -i)
  {
    if i < 0 {
      NatToStringRoundTrip(-i);
      assert IntToString(i)[1..] == NatToString(-i);
    } else {
      NatToStringRoundTrip(i);
    }
  }

  // ---------------------------------------------------------------- tokens

  function NonWsRun(s: string): (k: nat)
    ensures k <= |s|
    ensures forall j :: 0 <= j < k ==> !IsWhitespace(s[j])
    ensures k == |s| || IsWhitespace(s[k])
  {
    if s == [] || IsWhitespace(s[0]) then 0 else 1 + NonWsRun(s[1..])
  }

  /** The arguments StringTokenizer cuts a command line into: the maximal runs without whitespace. */
  function ExecTokens(s: string): seq<string>
    decreases |s|
  {
    if s == [] then []
    else if IsWhitespace(s[0]) then ExecTokens(s[1..])
    else
      var k := NonWsRun(s);
      [s[..k]] + ExecTokens(s[k..])
  }

  lemma SingleToken(w: string)
    requires w != [] && NoWhitespace(w)
    ensures ExecTokens(w) == [w]
  {
    var k := NonWsRun(w);
    assert k == |w|;
    assert !IsWhitespace(w[0]);
    assert w[..k] == w && w[k..] == [];
  }

  lemma {:induction false} NonWsRunPrefix(a: string, b: string)
    requires NoWhitespace(a) && b != [] && IsWhitespace(b[0])
    ensures NonWsRun(a + b) == |a|
    decreases |a|
  {
    if a != [] {
      assert (a + b)[1..] == a[1..] + b;
      NonWsRunPrefix(a[1..], b);
    }
  }

  lemma {:induction false} TokensJoin(a: string, b: string)
    ensures ExecTokens(a + " " + b) == ExecTokens(a) + ExecTokens(b)
    decreases |a|
  {
    var s := a + " " + b;
    if a == [] {
      assert s == " " + b && s[1..] == b;
    } else if IsWhitespace(a[0]) {
      assert s[1..] == a[1..] + " " + b;
      TokensJoin(a[1..], b);
    } else {
      var k := NonWsRun(a);
      NonWsRunPrefix(a[..k], a[k..] + " " + b) by {
        if k == |a| { assert (a[k..] + " " + b)[0] == ' '; }
        else { assert (a[k..] + " " + b)[0] == a[k]; }
        assert NoWhitespace(a[..k]);
      }
      assert a[..k] + (a[k..] + " " + b) == s;
      assert s[..k] == a[..k];
      assert s[k..] == a[k..] + " " + b;
      TokensJoin(a[k..], b);
    }
  }
}
