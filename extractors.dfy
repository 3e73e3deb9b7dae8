/**
 * The regex extractors of PingUtil: getRtt, getFromIp, getIP, getTtlEx and
 * getUnkHost. Each runs one Matcher.find() over the captured text; the ones
 * that return text cut a fixed number of characters off the match.
 */
module Extractors {
  import opened Wrappers
  import opened JavaText
  import opened Patterns

  /** The number in "time=12.3": digits, a dot, one digit. */
  const RttValue: Pattern := [Digits, Lit('.'), Digit]
  /** time=[0-9]+[.][0-9] */
  const TimePattern: Pattern := Literal("time=") + RttValue

  /** Four runs of digits joined by dots. */
  const DottedQuad: Pattern := [Digits, Lit('.'), Digits, Lit('.'), Digits, Lit('.'), Digits]
  /** From [0-9]+[.][0-9]+[.][0-9]+[.][0-9]+ */
  const FromPattern: Pattern := Literal("From ") + DottedQuad
  /** [(][0-9]+[.][0-9]+[.][0-9]+[.][0-9]+[)] */
  const ParenPattern: Pattern := Literal("(") + (DottedQuad + [Lit(')')])

  const TtlExceededPhrase := "Time to live exceeded"
  const UnknownHostPhrase := "unknown host"

  lemma WellFormedAfterLiteral(w: string, q: Pattern)
    requires WellFormed(q)
    ensures WellFormed(Literal(w) + q)
  {
    var p := Literal(w) + q;
    forall j | 0 <= j < |p| - 1 && p[j] == Digits ensures p[j + 1].Lit? && !IsDigit(p[j + 1].c) {
      assert j >= |w|;
      assert p[j] == q[j - |w|] && p[j + 1] == q[j - |w| + 1];
    }
  }

  lemma PatternsWellFormed()
    ensures WellFormed(TimePattern) && WellFormed(FromPattern) && WellFormed(ParenPattern)
  {
    assert WellFormed(RttValue);
    assert WellFormed(DottedQuad);
    assert WellFormed(DottedQuad + [Lit(')')]);
    WellFormedAfterLiteral("time=", RttValue);
    WellFormedAfterLiteral("From ", DottedQuad);
    WellFormedAfterLiteral("(", DottedQuad + [Lit(')')]);
  }

  /** What lies after the literal prefix of a span. */
  lemma SpanAfterPrefix(w: string, q: Pattern, s: string, j: nat, e: nat)
    requires Spans(Literal(w) + q, s, j, e)
    ensures j + |w| <= e && s[j..j + |w|] == w && InLang(q, s[j + |w|..e])
  {
    LiteralPrefix(w, q, s[j..e]);
    assert s[j..e][..|w|] == s[j..j + |w|];
    assert s[j..e][|w|..] == s[j + |w|..e];
  }

  /** A literal phrase is found exactly when it occurs in s. */
  lemma PhraseFound(w: string, s: string)
    ensures Find(Literal(w), s).Some? <==> Contains(s, w)
  {
    assert WellFormed(Literal(w));
    FindSpec(Literal(w), s);
    if Find(Literal(w), s).Some? {
      var (j, e) := Find(Literal(w), s).value;
      LiteralExact(w, s[j..e]);
      assert FoundAt(s, w, j);
    }
    if Contains(s, w) {
      var j: nat :| FoundAt(s, w, j);
      LiteralExact(w, s[j..j + |w|]);
      assert Spans(Literal(w), s, j, j + |w|);
    }
  }

  /**
   * getRtt: the number after the leftmost "time=" that is followed by digits,
   * a dot and a digit; "" when there is none. The number keeps exactly one
   * digit after the dot.
   */
  function GetRtt(s: string): (r: string)
    ensures r == "" <==> forall j: nat, e: nat :: !Spans(TimePattern, s, j, e)
    ensures r != "" ==> exists j: nat, e: nat ::
      LeftmostLongest(TimePattern, s, j, e) && j + 5 <= e <= |s| && r == s[j + 5..e]
    ensures r != "" ==> InLang(RttValue, r)
  {
    PatternsWellFormed();
    FindSpec(TimePattern, s);
    match Find(TimePattern, s)
    case None => ""
    case Some((j, e)) =>
      SpanAfterPrefix("time=", RttValue, s, j, e);
      s[j + 5..e]
  }

  /** getFromIp: the dotted digits after the leftmost "From " they follow; "" when there is none. */
  function GetFromIp(s: string): (r: string)
    ensures r == "" <==> forall j: nat, e: nat :: !Spans(FromPattern, s, j, e)
    ensures r != "" ==> exists j: nat, e: nat ::
      LeftmostLongest(FromPattern, s, j, e) && j + 5 <= e <= |s| && r == s[j + 5..e]
    ensures r != "" ==> InLang(DottedQuad, r)
  {
    PatternsWellFormed();
    FindSpec(FromPattern, s);
    match Find(FromPattern, s)
    case None => ""
    case Some((j, e)) =>
      SpanAfterPrefix("From ", DottedQuad, s, j, e);
      s[j + 5..e]
  }

  /** getIP: the dotted digits inside the leftmost "(a.b.c.d)", without the parentheses; "" when there is none. */
  function GetIP(s: string): (r: string)
    ensures r == "" <==> forall j: nat, e: nat :: !Spans(ParenPattern, s, j, e)
    ensures r != "" ==> exists j: nat, e: nat ::
      LeftmostLongest(ParenPattern, s, j, e) && j + 1 <= e - 1 && e <= |s| && r == s[j + 1..e - 1]
    ensures r != "" ==> InLang(DottedQuad, r)
  {
    PatternsWellFormed();
    FindSpec(ParenPattern, s);
    match Find(ParenPattern, s)
    case None => ""
    case Some((j, e)) =>
      ParenSpanInner(s, j, e);
      s[j + 1..e - 1]
  }

  /** Inside a "(a.b.c.d)" span lie dotted digits. */
  lemma ParenSpanInner(s: string, j: nat, e: nat)
    requires Spans(ParenPattern, s, j, e)
    ensures j + 1 <= e - 1 && e <= |s| && InLang(DottedQuad, s[j + 1..e - 1])
  {
    SpanAfterPrefix("(", DottedQuad + [Lit(')')], s, j, e);
    ClosingLiteral(DottedQuad, ')', s[j + 1..e]);
    assert s[j + 1..e][..|s[j + 1..e]| - 1] == s[j + 1..e - 1];
  }

  /** getTtlEx: the output reports "Time to live exceeded". */
  function GetTtlEx(respPing: string): (r: bool)
    ensures r <==> Contains(respPing, TtlExceededPhrase)
  {
    PhraseFound(TtlExceededPhrase, respPing);
    Find(Literal(TtlExceededPhrase), respPing).Some?
  }

  /** getUnkHost: the error output reports "unknown host". */
  function GetUnkHost(respErr: string): (r: bool)
    ensures r <==> Contains(respErr, UnknownHostPhrase)
  {
    PhraseFound(UnknownHostPhrase, respErr);
    Find(Literal(UnknownHostPhrase), respErr).Some?
  }

  // ---------------------------------------------------------------- examples

  /** "time=12.34" gives "12.3": one digit after the dot is kept, the rest dropped. */
  lemma RttKeepsOneDecimal()
    ensures GetRtt("time=12.34") == "12.3"
  {
    var s := "time=12.34";
    MatchAfterLiteral("time=", RttValue, s, 0);
    assert FoundAt(s, "time=", 0);
    assert DigitRun(s, 7) == 0;
    assert DigitRun(s, 5) == 2;
    assert MatchAt(RttValue, s, 5) == Some(9);
  }

  /** "time=12 ms" gives "": a whole number of milliseconds is not matched at all. */
  lemma RttNeedsDecimal()
    ensures GetRtt("time=12 ms") == ""
  {
    var s := "time=12 ms";
    MatchAfterLiteral("time=", RttValue, s, 0);
    assert FoundAt(s, "time=", 0);
    assert DigitRun(s, 7) == 0;
    assert DigitRun(s, 5) == 2;
    assert MatchAt(RttValue, s, 5).None?;
    forall j: nat | 1 <= j ensures !FoundAt(s, "time=", j) {
      if j <= 5 {
        assert s[j..j + 5][0] == s[j];
        assert j == 1 || j == 2 || j == 3 || j == 4 || j == 5;
      }
    }
    NoMatchWithoutLiteral("time=", RttValue, s, 1);
  }
}
