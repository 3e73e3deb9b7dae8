/**
 * isMatch(ipRegex, s): Pattern.matches over the whole string with
 * ipRegex = ((25[0-5]|2[0-4]\d|1\d{2}|[1-9]?\d)\.){3}(25[0-5]|2[0-4]\d|1\d{2}|[1-9]?\d),
 * the dotted-decimal form of an IPv4 address.
 */
module IpRegex {
  import opened JavaText

  /** One octet of ipRegex: its alternation 25[0-5] | 2[0-4]\d | 1\d{2} | [1-9]?\d, alternative by alternative. */
  predicate OctetRegex(t: string)
  {
    || (|t| == 3 && t[0] == '2' && t[1] == '5' && '0' <= t[2] <= '5')
    || (|t| == 3 && t[0] == '2' && '0' <= t[1] <= '4' && IsDigit(t[2]))
    || (|t| == 3 && t[0] == '1' && IsDigit(t[1]) && IsDigit(t[2]))
    || (|t| == 2 && '1' <= t[0] <= '9' && IsDigit(t[1]))
    || (|t| == 1 && IsDigit(t[0]))
  }

  /** The whole string is four octets of ipRegex joined by dots (an octet holds no dot). */
  predicate IsMatchIp(s: string)
  {
    var parts := SplitOnChar(s, '.');
    |parts| == 4 && OctetRegex(parts[0]) && OctetRegex(parts[1]) && OctetRegex(parts[2]) && OctetRegex(parts[3])
  }

  /** Reference meaning of an octet: a decimal numeral in 0..255 written without leading zeros. */
  predicate IsOctet(t: string)
  {
    Canonical(t) && DecimalValue(t) <= 255
  }

  /** a.b.c.d */
  function Dotted(a: string, b: string, c: string, d: string): string
  {
    a + ['.'] + (b + ['.'] + (c + ['.'] + d))
  }

  // ---------------------------------------------------------------- octets

  function Pow10(n: nat): nat { if n == 0 then 1 else 10 * Pow10(n - 1) }

  lemma {:induction false} LeadingDigitBound(t: string)
    requires AllDigits(t) && |t| >= 1 && t[0] != '0'
    ensures DecimalValue(t) >= Pow10(|t| - 1)
    decreases |t|
  {
    if |t| > 1 {
      var u := t[..|t| - 1];
      assert u[0] == t[0];
      LeadingDigitBound(u);
    }
  }

  lemma {:induction false} Pow10AtLeast(n: nat)
    requires n >= 3
    ensures Pow10(n) >= 1000
  {
    if n > 3 { Pow10AtLeast(n - 1); }
  }

  lemma ThreeDigitValue(t: string)
    requires |t| == 3 && AllDigits(t)
    ensures DecimalValue(t) == 100 * DigitValue(t[0]) + 10 * DigitValue(t[1]) + DigitValue(t[2])
  {
    var u := t[..2];
    var v := u[..1];
    assert u[1] == t[1] && v[0] == t[0] && v[..0] == [];
    assert DecimalValue(v) == DigitValue(t[0]);
    assert DecimalValue(u) == 10 * DecimalValue(v) + DigitValue(t[1]);
    assert DecimalValue(t) == 10 * DecimalValue(u) + DigitValue(t[2]);
  }

  lemma TwoDigitValue(t: string)
    requires |t| == 2 && AllDigits(t)
    ensures DecimalValue(t) == 10 * DigitValue(t[0]) + DigitValue(t[1])
  {
    var v := t[..1];
    assert v[0] == t[0] && v[..0] == [];
    assert DecimalValue(v) == DigitValue(t[0]);
    assert DecimalValue(t) == 10 * DecimalValue(v) + DigitValue(t[1]);
  }

  lemma OneDigitValue(t: string)
    requires |t| == 1 && AllDigits(t)
    ensures DecimalValue(t) == DigitValue(t[0])
  {
    assert t[..0] == [];
  }

  /** The alternation accepts exactly the numerals 0..255 without leading zeros. */
  lemma OctetRegexMeaning(t: string)
    ensures OctetRegex(t) <==> IsOctet(t)
  {
    if |t| == 1 && AllDigits(t) {
      OneDigitValue(t);
    } else if |t| == 2 && AllDigits(t) {
      TwoDigitValue(t);
    } else if |t| == 3 && AllDigits(t) {
      ThreeDigitValue(t);
    } else if |t| >= 4 && AllDigits(t) && t[0] != '0' {
      LeadingDigitBound(t);
      Pow10AtLeast(|t| - 1);
    }
  }

  // ---------------------------------------------------------------- addresses

  lemma SplitMany(w: string, c: char)
    requires c in w
    ensures |SplitOnChar(w, c)| >= 2
  {
  }

  lemma SplitDotted(a: string, b: string, c: string, d: string)
    ensures SplitOnChar(Dotted(a, b, c, d), '.')
      == SplitOnChar(a, '.') + SplitOnChar(b, '.') + SplitOnChar(c, '.') + SplitOnChar(d, '.')
  {
    SplitConcat(c, '.', d);
    SplitConcat(b, '.', c + ['.'] + d);
    SplitConcat(a, '.', b + ['.'] + (c + ['.'] + d));
  }

  /** isMatch(ipRegex, a.b.c.d) holds exactly when a, b, c and d are octets. */
  lemma IpLiteralOfOctets(a: string, b: string, c: string, d: string)
    ensures IsMatchIp(Dotted(a, b, c, d)) <==> IsOctet(a) && IsOctet(b) && IsOctet(c) && IsOctet(d)
  {
    SplitDotted(a, b, c, d);
    OctetRegexMeaning(a);
    OctetRegexMeaning(b);
    OctetRegexMeaning(c);
    OctetRegexMeaning(d);
    if '.' in a { SplitMany(a, '.'); }
    if '.' in b { SplitMany(b, '.'); }
    if '.' in c { SplitMany(c, '.'); }
    if '.' in d { SplitMany(d, '.'); }
    if IsOctet(a) && IsOctet(b) && IsOctet(c) && IsOctet(d) {
      assert '.' !in a && '.' !in b && '.' !in c && '.' !in d;
    }
  }

  /** A string that matches ipRegex is four octets joined by dots. */
  lemma IpLiteralParts(s: string)
    requires IsMatchIp(s)
    ensures exists a, b, c, d :: s == Dotted(a, b, c, d) && IsOctet(a) && IsOctet(b) && IsOctet(c) && IsOctet(d)
  {
    var parts := SplitOnChar(s, '.');
    SplitPieces(s, '.');
    JoinFour(parts);
    assert s == Dotted(parts[0], parts[1], parts[2], parts[3]);
    OctetRegexMeaning(parts[0]);
    OctetRegexMeaning(parts[1]);
    OctetRegexMeaning(parts[2]);
    OctetRegexMeaning(parts[3]);
  }

  lemma JoinFour(parts: seq<string>)
    requires |parts| == 4
    ensures Join(parts, '.') == Dotted(parts[0], parts[1], parts[2], parts[3])
  {
    assert Join(parts[3..], '.') == parts[3];
    assert Join(parts[2..], '.') == parts[2] + ['.'] + parts[3] by { assert parts[2..][1..] == parts[3..]; }
    assert Join(parts[1..], '.') == parts[1] + ['.'] + (parts[2] + ['.'] + parts[3]) by { assert parts[1..][1..] == parts[2..]; }
  }

  /** "192.168.0.1" is an address literal. */
  lemma IpLiteralExample(s: string)
    requires s == "192.168.0.1"
    ensures IsMatchIp(s)
  {
    var a, b, c, d := "192", "168", "0", "1";
    assert s == Dotted(a, b, c, d);
    assert '.' !in a && '.' !in b && '.' !in c && '.' !in d;
    assert OctetRegex(a) && OctetRegex(b) && OctetRegex(c) && OctetRegex(d);
    DottedIsIp(a, b, c, d);
  }

  /** Four dot-free parts each accepted by an octet alternative make an address literal. */
  lemma DottedIsIp(a: string, b: string, c: string, d: string)
    requires '.' !in a && '.' !in b && '.' !in c && '.' !in d
    requires OctetRegex(a) && OctetRegex(b) && OctetRegex(c) && OctetRegex(d)
    ensures IsMatchIp(Dotted(a, b, c, d))
  {
    SplitDotted(a, b, c, d);
    SplitNoSeparator(a, '.');
    SplitNoSeparator(b, '.');
    SplitNoSeparator(c, '.');
    SplitNoSeparator(d, '.');
    var parts := SplitOnChar(Dotted(a, b, c, d), '.');
    assert parts == [a] + [b] + [c] + [d];
    assert |parts| == 4 && parts[0] == a && parts[1] == b && parts[2] == c && parts[3] == d;
  }

  /** "192.168.00.1" is not: an octet has no leading zero. */
  lemma LeadingZeroIsNoIpLiteral(s: string)
    requires s == "192.168.00.1"
    ensures !IsMatchIp(s)
  {
    assert s == Dotted("192", "168", "00", "1");
    IpLiteralOfOctets("192", "168", "00", "1");
  }

  /** "256.1.1.1" is not: an octet is at most 255. */
  lemma LargeOctetIsNoIpLiteral(s: string)
    requires s == "256.1.1.1"
    ensures !IsMatchIp(s)
  {
    assert s == Dotted("256", "1", "1", "1");
    ThreeDigitValue("256");
    IpLiteralOfOctets("256", "1", "1", "1");
  }
}
