/**
 * The public queries of the utility: each resolves a host, runs ping once and
 * reads one value from what it printed, answering -1 (or null) on any failure.
 * Running the process, URI parsing and floating-point conversion are not
 * modelled: they are the parameters domain, probe, round and parse.
 */
module Queries {
  import opened Wrappers
  import opened JavaText
  import opened IpRegex
  import opened Commands
  import opened OutputSlices
  import opened Assembler

  /** Starts a process with the given words and returns its standard output; None when that throws. */
  type Probe = seq<string> -> Option<string>
  /** Float.valueOf followed by Math.round; None when the text is no number. */
  type Rounding = string -> Option<int>
  /** Float.valueOf; None when the text is no number. */
  type Parse = string -> Option<real>

  /** The count and timeout getIPFromUrl pings with (and the one-argument overloads pass on). */
  const DefaultCount := 1
  const DefaultTimeout := 100

  /** The sentinel of the integer and float queries. */
  const NoValue := -1

  /** What ping(createSimplePingCommand(count, timeout, d)) captured. */
  function Observed(d: string, count: int, timeout: int, probe: Probe): Option<string>
  {
    probe(ExecTokens(SimplePingCommand(count, timeout, d)))
  }

  /** The text a query selects from the output of one ping of the host, if every step succeeds. */
  function Selected(domain: Option<string>, count: int, timeout: int, probe: Probe,
                    select: string -> Option<string>): Option<string>
  {
    if domain.None? then None
    else match Observed(domain.value, count, timeout, probe)
      case None => None
      case Some(out) => select(out)
  }

  /** Math.round(Float.valueOf(text)), with -1 for a missing text or a failed conversion. */
  function Rounded(text: Option<string>, round: Rounding): (r: int)
    ensures text.None? ==> r == NoValue
    ensures text.Some? && round(text.value).None? ==> r == NoValue
    ensures text.Some? && round(text.value).Some? ==> r == round(text.value).value
    ensures r != NoValue ==> text.Some? && round(text.value) == Some(r)
  {
    match text
    case None => NoValue
    case Some(t) => match round(t) case None => NoValue case Some(v) => v
  }

  /** getMinRTT(url, count, timeout). */
  function GetMinRtt(domain: Option<string>, count: int, timeout: int, probe: Probe, round: Rounding): int
  {
    Rounded(Selected(domain, count, timeout, probe, MinRttText), round)
  }

  /** getMaxRTT(url, count, timeout). */
  function GetMaxRtt(domain: Option<string>, count: int, timeout: int, probe: Probe, round: Rounding): int
  {
    Rounded(Selected(domain, count, timeout, probe, MaxRttText), round)
  }

  /** getMdevRTT(url, count, timeout). */
  function GetMdevRtt(domain: Option<string>, count: int, timeout: int, probe: Probe, round: Rounding): int
  {
    Rounded(Selected(domain, count, timeout, probe, MdevRttText), round)
  }

  /** getPacketLoss(url, count, timeout): the loss text, or None for null. */
  function GetPacketLoss(domain: Option<string>, count: int, timeout: int, probe: Probe): Option<string>
  {
    Selected(domain, count, timeout, probe, PacketLossText)
  }

  /**
   * getPacketLossFloat(url, count, timeout): the loss text without its '%'
   * signs, converted; -1 when there is no text or it is no number.
   */
  function GetPacketLossFloat(domain: Option<string>, count: int, timeout: int, probe: Probe, parse: Parse): (r: real)
    ensures GetPacketLoss(domain, count, timeout, probe).None? ==> r == NoValue as real
    ensures GetPacketLoss(domain, count, timeout, probe).Some? ==>
      var t := ReplaceAll(GetPacketLoss(domain, count, timeout, probe).value, "%", "");
      && '%' !in t
      && (parse(t).Some? ==> r == parse(t).value)
      && (parse(t).None? ==> r == NoValue as real)
  {
    match GetPacketLoss(domain, count, timeout, probe)
    case None => NoValue as real
    case Some(info) =>
      var t := ReplaceAll(info, "%", "");
      ReplaceRemovesChar(info, '%');
      match parse(t) case None => NoValue as real case Some(x) => x
  }

  /**
   * getIPFromUrl(url): an address literal is returned as it is; any other
   * host is pinged once (count 1, timeout 100) and the address is read from
   * the first reply line.
   */
  function GetIPFromUrl(domain: Option<string>, probe: Probe): Option<string>
  {
    if domain.None? then None
    else if IsMatchIp(domain.value) then domain
    else match Observed(domain.value, DefaultCount, DefaultTimeout, probe)
      case None => None
      case Some(out) => FromAddressText(out)
  }

  /**
   * getAvgRTT(domain, count, timeout, ttl): pingNf on the -W/-t command. The
   * host is used as given, without URI parsing.
   */
  method GetAvgRtt(domain: string, count: int, timeout: int, ttl: int, run: seq<string> -> Option<Captured>)
    returns (m: PingResult)
    ensures var argv := ExecTokens(AvgRttCommand(count, timeout, ttl, domain));
      && (run(argv).None? ==> m == IoFailure)
      && (run(argv).Some? ==> m.Assembled? && Classifies(run(argv).value.stdout, run(argv).value.stderr, run(argv).value.delta, m.report))
  {
    m := PingNf(AvgRttCommand(count, timeout, ttl, domain), run);
  }

  // ---------------------------------------------------------------- sentinels

  /** Without a host every query gives its sentinel and nothing is run. */
  lemma NoDomainSentinels(count: int, timeout: int, probe: Probe, round: Rounding, parse: Parse)
    ensures GetMinRtt(None, count, timeout, probe, round) == NoValue
    ensures GetMaxRtt(None, count, timeout, probe, round) == NoValue
    ensures GetMdevRtt(None, count, timeout, probe, round) == NoValue
    ensures GetPacketLoss(None, count, timeout, probe) == None
    ensures GetPacketLossFloat(None, count, timeout, probe, parse) == NoValue as real
    ensures GetIPFromUrl(None, probe) == None
  {
  }

  /** When the ping cannot be run every statistics query gives its sentinel. */
  lemma NoOutputSentinels(d: string, count: int, timeout: int, probe: Probe, round: Rounding, parse: Parse)
    requires Observed(d, count, timeout, probe).None?
    ensures GetMinRtt(Some(d), count, timeout, probe, round) == NoValue
    ensures GetMaxRtt(Some(d), count, timeout, probe, round) == NoValue
    ensures GetMdevRtt(Some(d), count, timeout, probe, round) == NoValue
    ensures GetPacketLoss(Some(d), count, timeout, probe) == None
    ensures GetPacketLossFloat(Some(d), count, timeout, probe, parse) == NoValue as real
  {
  }

  // ---------------------------------------------------------------- values read from a line

  /**
   * When the ping prints the summary line "<pre>min/avg/max/mdev<sep>a/b/c/v ms<tail>",
   * the three statistics queries convert a, c and "v<tail>".
   */
  lemma StatisticsOfSummary(d: string, count: int, timeout: int, probe: Probe, round: Rounding,
                            pre: string, sep: string, a: string, b: string, c: string, v: string, tail: string)
    requires forall j: nat :: j < |pre| ==> !FoundAt(pre + StatsMarker, StatsMarker, j)
    requires |sep| == 3
    requires '/' !in a && '/' !in b && '/' !in c && '/' !in v && '/' !in tail
    requires ' ' !in v
    requires Observed(d, count, timeout, probe) ==
      Some(pre + StatsMarker + (sep + (a + "/" + (b + "/" + (c + "/" + (v + (" ms" + tail)))))))
    ensures GetMinRtt(Some(d), count, timeout, probe, round) == Rounded(Some(a), round)
    ensures GetMaxRtt(Some(d), count, timeout, probe, round) == Rounded(Some(c), round)
    ensures GetMdevRtt(Some(d), count, timeout, probe, round) == Rounded(Some(v + ReplaceAll(tail, " ms", "")), round)
  {
    StatsLine(pre, sep, a, b, c, v, tail);
  }

  /**
   * getMinRTT on an output whose first "min/avg/max/mdev" is at k: -1 unless
   * 19 characters follow k and the split has a piece 0, which is then converted.
   */
  lemma MinRttQuery(d: string, count: int, timeout: int, probe: Probe, round: Rounding, out: string, k: nat)
    requires Observed(d, count, timeout, probe) == Some(out)
    requires FoundAt(out, StatsMarker, k) && forall j: nat :: j < k ==> !FoundAt(out, StatsMarker, j)
    ensures GetMinRtt(Some(d), count, timeout, probe, round) ==
      if k + StatsOffset <= |out| && 1 <= |JavaSplit(out[k + StatsOffset..], '/')|
      then Rounded(Some(JavaSplit(out[k + StatsOffset..], '/')[0]), round)
      else NoValue
  {
    StatsSlice(out, k);
  }

  /** getMaxRTT likewise: -1 unless the split has a piece 2, which is then converted. */
  lemma MaxRttQuery(d: string, count: int, timeout: int, probe: Probe, round: Rounding, out: string, k: nat)
    requires Observed(d, count, timeout, probe) == Some(out)
    requires FoundAt(out, StatsMarker, k) && forall j: nat :: j < k ==> !FoundAt(out, StatsMarker, j)
    ensures GetMaxRtt(Some(d), count, timeout, probe, round) ==
      if k + StatsOffset <= |out| && 3 <= |JavaSplit(out[k + StatsOffset..], '/')|
      then Rounded(Some(JavaSplit(out[k + StatsOffset..], '/')[2]), round)
      else NoValue
  {
    StatsSlice(out, k);
  }

  /** getMdevRTT likewise: -1 unless the split has a piece 3, converted after removing " ms". */
  lemma MdevRttQuery(d: string, count: int, timeout: int, probe: Probe, round: Rounding, out: string, k: nat)
    requires Observed(d, count, timeout, probe) == Some(out)
    requires FoundAt(out, StatsMarker, k) && forall j: nat :: j < k ==> !FoundAt(out, StatsMarker, j)
    ensures GetMdevRtt(Some(d), count, timeout, probe, round) ==
      if k + StatsOffset <= |out| && 4 <= |JavaSplit(out[k + StatsOffset..], '/')|
      then Rounded(Some(ReplaceAll(JavaSplit(out[k + StatsOffset..], '/')[3], " ms", "")), round)
      else NoValue
  {
    StatsSlice(out, k);
  }

  /** When the ping prints "<pre>received,<loss>packet<post>", getPacketLoss gives loss. */
  lemma LossOfSummary(d: string, count: int, timeout: int, probe: Probe, pre: string, loss: string, post: string)
    requires forall j: nat :: j < |pre| ==> !FoundAt(pre + ReceivedMarker, ReceivedMarker, j)
    requires 'p' !in loss
    requires Observed(d, count, timeout, probe) == Some(pre + ReceivedMarker + (loss + (PacketMarker + post)))
    ensures GetPacketLoss(Some(d), count, timeout, probe) == Some(loss)
  {
    PacketLossLine(pre, loss, post);
  }

  /**
   * getPacketLoss on an output whose first "received," is at k, with the next
   * "packet" m characters on: the text between them, null when m < 9.
   */
  lemma PacketLossQuery(d: string, count: int, timeout: int, probe: Probe, out: string, k: nat, m: nat)
    requires Observed(d, count, timeout, probe) == Some(out)
    requires FoundAt(out, ReceivedMarker, k) && forall j: nat :: j < k ==> !FoundAt(out, ReceivedMarker, j)
    requires FoundAt(out, PacketMarker, k + m) && forall j: nat :: k <= j < k + m ==> !FoundAt(out, PacketMarker, j)
    ensures GetPacketLoss(Some(d), count, timeout, probe) == if 9 <= m then Some(out[k + 9..k + m]) else None
  {
    PacketLossSlice(out, k, m);
  }

  /**
   * getPacketLossFloat when the loss text is x%y: the conversion of x + y,
   * or -1 when that is no number.
   */
  lemma LossFloatOfSummary(d: string, count: int, timeout: int, probe: Probe, parse: Parse,
                           pre: string, x: string, y: string, post: string)
    requires forall j: nat :: j < |pre| ==> !FoundAt(pre + ReceivedMarker, ReceivedMarker, j)
    requires 'p' !in x && 'p' !in y && '%' !in x && '%' !in y
    requires Observed(d, count, timeout, probe) == Some(pre + ReceivedMarker + ((x + ("%" + y)) + (PacketMarker + post)))
    ensures GetPacketLossFloat(Some(d), count, timeout, probe, parse) ==
      if parse(x + y).Some? then parse(x + y).value else NoValue as real
  {
    var loss := x + ("%" + y);
    assert 'p' !in loss;
    LossOfSummary(d, count, timeout, probe, pre, loss, post);
    PercentRemoved(x, y);
  }

  /** replace("%", "") on x%y, neither part holding a '%', gives x + y. */
  lemma PercentRemoved(x: string, y: string)
    requires '%' !in x && '%' !in y
    ensures ReplaceAll(x + ("%" + y), "%", "") == x + y
  {
    ReplaceSingle(x, "%", y, "");
    assert x + "" + y == x + y;
  }

  /** The loss text " 0% " is converted as " 0 ". */
  lemma LossFloatExample(d: string, count: int, timeout: int, probe: Probe, parse: Parse, pre: string, post: string)
    requires forall j: nat :: j < |pre| ==> !FoundAt(pre + ReceivedMarker, ReceivedMarker, j)
    requires Observed(d, count, timeout, probe) == Some(pre + ReceivedMarker + (" 0% " + (PacketMarker + post)))
    ensures GetPacketLossFloat(Some(d), count, timeout, probe, parse) ==
      if parse(" 0 ").Some? then parse(" 0 ").value else NoValue as real
  {
    assert " 0% " == " 0" + ("%" + " ");
    assert " 0" + " " == " 0 ";
    LossFloatOfSummary(d, count, timeout, probe, parse, pre, " 0", " ", post);
  }

  // ---------------------------------------------------------------- getIPFromUrl

  /** An address literal is its own answer, whatever the probe would have printed. */
  lemma IpLiteralNotProbed(d: string, probe1: Probe, probe2: Probe)
    requires IsMatchIp(d)
    ensures GetIPFromUrl(Some(d), probe1) == Some(d)
    ensures GetIPFromUrl(Some(d), probe1) == GetIPFromUrl(Some(d), probe2)
  {
  }

  /** "192.168.0.1" is answered without a ping. */
  lemma IpLiteralExampleNotProbed(d: string, probe: Probe)
    requires d == "192.168.0.1"
    ensures GetIPFromUrl(Some(d), probe) == Some(d)
  {
    IpLiteralExample(d);
  }

  /**
   * A host name is answered from the first reply line
   * "<pre>from<c><addr><gap>icmp_seq<post>" of one ping.
   */
  lemma HostnameFromReply(d: string, probe: Probe, pre: string, c: char, addr: string, gap: string, post: string)
    requires !IsMatchIp(d)
    requires forall j: nat :: j < |pre| ==> !FoundAt(pre + FromMarker, FromMarker, j)
    requires |gap| == 2 && 'i' !in addr && 'i' !in gap
    requires Observed(d, DefaultCount, DefaultTimeout, probe) ==
      Some(pre + FromMarker + ([c] + (addr + (gap + (SeqMarker + post)))))
    ensures GetIPFromUrl(Some(d), probe) == Some(addr)
  {
    FromAddressLine(pre, c, addr, gap, post);
  }

  /**
   * getIPFromUrl for a host name whose ping printed out, with the first "from"
   * at k and the next "icmp_seq" from k+5 on m characters later: the text up to
   * two characters before it, null when m < 2.
   */
  lemma IpFromUrlQuery(d: string, probe: Probe, out: string, k: nat, m: nat)
    requires !IsMatchIp(d) && Observed(d, DefaultCount, DefaultTimeout, probe) == Some(out)
    requires FoundAt(out, FromMarker, k) && forall j: nat :: j < k ==> !FoundAt(out, FromMarker, j)
    requires k + 5 <= |out|
    requires FoundAt(out, SeqMarker, k + 5 + m) && forall j: nat :: k + 5 <= j < k + 5 + m ==> !FoundAt(out, SeqMarker, j)
    ensures GetIPFromUrl(Some(d), probe) == if 2 <= m then Some(out[k + 5..k + 5 + m - 2]) else None
  {
    FromAddressSlice(out, k, m);
  }

  /** A host name without output from its ping has no address. */
  lemma HostnameWithoutOutput(d: string, probe: Probe)
    requires !IsMatchIp(d) && Observed(d, DefaultCount, DefaultTimeout, probe).None?
    ensures GetIPFromUrl(Some(d), probe) == None
  {
  }
}
