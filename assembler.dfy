/**
 * The classification at the end of pingNf: from the captured standard output,
 * the captured standard error and the elapsed milliseconds it builds the
 * eight-entry result map the bridge hands back to JavaScript.
 */
module Assembler {
  import opened Wrappers
  import opened JavaText
  import opened Patterns
  import opened Extractors

  /** The eight string entries of the result map. */
  datatype Report = Report(
    respPing: string,
    respErr: string,
    rtt: string,
    fromAddr: string,
    calTime: string,
    matchesAddress: string,
    orgTtl: string,
    ipAddr: string)

  /** What pingNf returns: the assembled map, or the two-entry map left after an IOException. */
  datatype PingResult = Assembled(report: Report) | Failed(failPing: string, failErr: string)

  /** The map built when starting or reading the process throws. */
  const IoFailure := Failed("fail", "fail")

  /** The outcome codes of matchesAddress: no reply, a timed reply, an unknown host. */
  const NoReply := "0"
  const Replied := "1"
  const HostUnknown := "2"
  /** The rtt entry when there is no round-trip time to report. */
  const NoRtt := "-1"

  /** What one run captured: the two streams and the milliseconds between start and end. */
  datatype Captured = Captured(stdout: string, stderr: string, delta: int)

  /**
   * The decision table of the classifier: standard error longer than two
   * characters wins; otherwise an output without a time= reading falls back
   * to the elapsed time when the TTL ran out; otherwise the reading is the RTT.
   */
  predicate Classifies(respPing: string, respErr: string, delta: int, r: Report)
  {
    && r.respPing == respPing
    && r.respErr == respErr
    && r.orgTtl == GetRtt(respPing)
    && r.calTime == IntToString(delta)
    && r.fromAddr == GetFromIp(respPing)
    && r.ipAddr == GetIP(respPing)
    && if |respErr| > 2 then
         r.rtt == NoRtt && r.matchesAddress == (if GetUnkHost(respErr) then HostUnknown else NoReply)
       else if GetRtt(respPing) == "" then
         r.matchesAddress == NoReply && r.rtt == (if GetTtlEx(respPing) then IntToString(delta) else NoRtt)
       else
         r.rtt == GetRtt(respPing) && r.matchesAddress == Replied
  }

  /** The classification block of pingNf, reassigning rtt and matchesAddress as it goes. */
  method Assemble(respPing: string, respErr: string, delta: int) returns (r: Report)
    ensures Classifies(respPing, respErr, delta, r)
    ensures r.matchesAddress == Replied <==>
      |respErr| <= 2 && exists j: nat, e: nat :: Spans(TimePattern, respPing, j, e)
    ensures r.matchesAddress == HostUnknown <==> |respErr| > 2 && Contains(respErr, UnknownHostPhrase)
  {
    var rtt := GetRtt(respPing);
    var ipAddr := GetIP(respPing);
    var ttlEx := GetTtlEx(respPing);
    var unkHost := GetUnkHost(respErr);
    var orgRtt := rtt;
    var matchesAddress := NoReply;
    if |respErr| > 2 {
      rtt := NoRtt;
      if unkHost {
        matchesAddress := HostUnknown;
      } else {
        matchesAddress := NoReply;
      }
    } else {
      if |rtt| == 0 {
        if !ttlEx {
          rtt := NoRtt;
        } else {
          rtt := IntToString(delta);
        }
      } else {
        matchesAddress := Replied;
      }
    }
    r := Report(respPing, respErr, rtt, GetFromIp(respPing), IntToString(delta), matchesAddress, orgRtt, ipAddr);
  }

  /**
   * pingNf: the process is started with the command split into words; when
   * that or reading its streams fails the result is the "fail" map, otherwise
   * the classification of what it printed.
   */
  method PingNf(command: string, run: seq<string> -> Option<Captured>) returns (m: PingResult)
    ensures run(ExecTokens(command)).None? ==> m == IoFailure
    ensures run(ExecTokens(command)).Some? ==>
      var c := run(ExecTokens(command)).value;
      m.Assembled? && Classifies(c.stdout, c.stderr, c.delta, m.report)
  {
    var captured := run(ExecTokens(command));
    if captured.None? {
      return IoFailure;
    }
    var report := Assemble(captured.value.stdout, captured.value.stderr, captured.value.delta);
    m := Assembled(report);
  }

  // ---------------------------------------------------------------- properties of the table

  /** The table leaves no choice: one report per input. */
  lemma ClassifiesUnique(respPing: string, respErr: string, delta: int, r1: Report, r2: Report)
    requires Classifies(respPing, respErr, delta, r1) && Classifies(respPing, respErr, delta, r2)
    ensures r1 == r2
  {
  }

  /** matchesAddress is always one of the three codes. */
  lemma OutcomeCodes(respPing: string, respErr: string, delta: int, r: Report)
    requires Classifies(respPing, respErr, delta, r)
    ensures r.matchesAddress in {NoReply, Replied, HostUnknown}
  {
  }

  /**
   * Standard error longer than two characters: no RTT, and "2" exactly when
   * it mentions an unknown host, whatever standard output held.
   */
  lemma ErrorOverrides(respPing: string, respErr: string, delta: int, r: Report)
    requires Classifies(respPing, respErr, delta, r) && |respErr| > 2
    ensures r.rtt == NoRtt
    ensures r.matchesAddress == (if Contains(respErr, UnknownHostPhrase) then HostUnknown else NoReply)
  {
  }

  /** Under an error of more than two characters the outcome does not depend on standard output. */
  lemma ErrorIgnoresOutput(ping1: string, ping2: string, respErr: string, delta: int, r1: Report, r2: Report)
    requires |respErr| > 2
    requires Classifies(ping1, respErr, delta, r1) && Classifies(ping2, respErr, delta, r2)
    ensures r1.rtt == r2.rtt && r1.matchesAddress == r2.matchesAddress
  {
  }

  /**
   * A short error and no time= reading: outcome "0", and the RTT is the
   * elapsed time exactly when the TTL ran out.
   */
  lemma TtlFallback(respPing: string, respErr: string, delta: int, r: Report)
    requires Classifies(respPing, respErr, delta, r) && |respErr| <= 2
    requires forall j: nat, e: nat :: !Spans(TimePattern, respPing, j, e)
    ensures r.matchesAddress == NoReply
    ensures r.rtt == (if Contains(respPing, TtlExceededPhrase) then IntToString(delta) else NoRtt)
  {
  }

  /**
   * A short error and a time= reading: outcome "1" and the RTT is the
   * reading from the leftmost match, digits, a dot and one digit.
   */
  lemma DirectMatch(respPing: string, respErr: string, delta: int, r: Report)
    requires Classifies(respPing, respErr, delta, r) && |respErr| <= 2
    requires exists j: nat, e: nat :: Spans(TimePattern, respPing, j, e)
    ensures r.matchesAddress == Replied && r.rtt == r.orgTtl
    ensures InLang(RttValue, r.rtt)
    ensures exists j: nat, e: nat :: LeftmostLongest(TimePattern, respPing, j, e) && r.rtt == respPing[j + 5..e]
  {
  }

  /** Every rtt entry is "-1", a time= reading, or the elapsed time after an exceeded TTL. */
  lemma RttShapes(respPing: string, respErr: string, delta: int, r: Report)
    requires Classifies(respPing, respErr, delta, r)
    ensures || r.rtt == NoRtt
            || (InLang(RttValue, r.rtt) && r.matchesAddress == Replied)
            || (r.rtt == r.calTime && Contains(respPing, TtlExceededPhrase))
  {
  }

  /** A reply line classified end to end: "time=12.34" gives rtt "12.3" and outcome "1". */
  lemma ReplyExample(delta: int, r: Report)
    requires Classifies("time=12.34", "", delta, r)
    ensures r.rtt == "12.3" && r.matchesAddress == Replied
  {
    RttKeepsOneDecimal();
  }
}
