/**
 * The command lines PingUtil hands to Runtime.exec(String). That call cuts the
 * line at whitespace (StringTokenizer), so what matters about a command is the
 * argument list ExecTokens gives back.
 */
module Commands {
  import opened JavaText

  const PingBinary := "/system/bin/ping"

  /** createSimplePingCommand: count of echo requests (-c) and overall deadline (-w), then the host. */
  function SimplePingCommand(count: int, timeout: int, domain: string): string
  {
    PingBinary + " -c " + IntToString(count) + " -w " + IntToString(timeout) + " " + domain
  }

  /** The command getAvgRTT builds: count (-c), per-reply wait (-W), time to live (-t), then the host. */
  function AvgRttCommand(count: int, timeout: int, ttl: int, domain: string): string
  {
    PingBinary + " -c " + IntToString(count) + " -W " + IntToString(timeout) + " -t " + IntToString(ttl) + " " + domain
  }

  /** A list of flags and values, " k1 v1 k2 v2 ...", in index order. */
  function OptionText(entries: seq<(string, string)>): string
  {
    if entries == [] then "" else " " + entries[0].0 + " " + entries[0].1 + OptionText(entries[1..])
  }

  /** The arguments the entries stand for: k1, v1, k2, v2, ... */
  function Arguments(entries: seq<(string, string)>): seq<string>
  {
    if entries == [] then [] else [entries[0].0, entries[0].1] + Arguments(entries[1..])
  }

  /**
   * createPingCommand: the binary, then " key value" for each entry of the map
   * in index order, then " domain". An ArrayMap's keys are distinct, so
   * get(keyAt(i)) is the i-th entry's value.
   */
  method CreatePingCommand(entries: seq<(string, string)>, domain: string) returns (command: string)
    ensures command == PingBinary + OptionText(entries) + " " + domain
  {
    command := PingBinary;
    var len := |entries|;
    for i := 0 to len
      invariant command == PingBinary + OptionText(entries[..i])
    {
      OptionTextSnoc(entries, i);
      command := command + (" " + entries[i].0 + " " + entries[i].1);
    }
    assert entries[..len] == entries;
    command := command + (" " + domain);
  }

  lemma {:induction false} OptionTextSnoc(entries: seq<(string, string)>, i: nat)
    requires i < |entries|
    ensures OptionText(entries[..i + 1]) == OptionText(entries[..i]) + (" " + entries[i].0 + " " + entries[i].1)
  {
    if i == 0 {
      assert entries[..1] == [entries[0]];
      assert entries[..1][1..] == [];
    } else {
      var tail := entries[1..];
      OptionTextSnoc(tail, i - 1);
      assert entries[..i + 1][1..] == tail[..i];
      assert entries[..i][1..] == tail[..i - 1];
      assert entries[..i + 1][0] == entries[0] && entries[..i][0] == entries[0];
      assert tail[i - 1] == entries[i];
    }
  }

  /** A word Runtime.exec passes on as one argument: not empty, no whitespace. */
  predicate PlainWord(w: string) { w != [] && NoWhitespace(w) }

  predicate PlainEntries(entries: seq<(string, string)>)
  {
    forall i :: 0 <= i < |entries| ==> PlainWord(entries[i].0) && PlainWord(entries[i].1)
  }

  /** Words joined by single spaces. */
  function SpaceJoin(ws: seq<string>): string
    requires ws != []
  {
    if |ws| == 1 then ws[0] else ws[0] + " " + SpaceJoin(ws[1..])
  }

  lemma {:induction false} SpaceJoinTokens(ws: seq<string>)
    requires ws != [] && forall i :: 0 <= i < |ws| ==> PlainWord(ws[i])
    ensures ExecTokens(SpaceJoin(ws)) == ws
  {
    if |ws| == 1 {
      SingleToken(ws[0]);
    } else {
      SpaceJoinTokens(ws[1..]);
      TokensJoin(ws[0], SpaceJoin(ws[1..]));
      SingleToken(ws[0]);
    }
  }

  lemma {:induction false} SpaceJoinAppend(xs: seq<string>, ys: seq<string>)
    requires xs != [] && ys != []
    ensures SpaceJoin(xs) + " " + SpaceJoin(ys) == SpaceJoin(xs + ys)
  {
    if |xs| > 1 {
      assert (xs + ys)[1..] == xs[1..] + ys;
      SpaceJoinAppend(xs[1..], ys);
    } else {
      assert (xs + ys)[1..] == ys;
    }
  }

  lemma SpaceJoinPair(k: string, v: string, rest: seq<string>)
    requires rest != []
    ensures SpaceJoin([k, v] + rest) == k + " " + (v + " " + SpaceJoin(rest))
  {
    var all := [k, v] + rest;
    assert all[1..] == [v] + rest;
    assert all[1..][1..] == rest;
  }

  lemma Regroup(k: string, v: string, t: string, d: string, sj: string)
    requires t + " " + d == " " + sj
    ensures " " + k + " " + v + t + " " + d == " " + (k + " " + (v + " " + sj))
  {
    calc {
      " " + k + " " + v + t + " " + d;
      (" " + k + " " + v) + (t + " " + d);
      (" " + k + " " + v) + (" " + sj);
    }
  }

  lemma {:induction false} OptionTextJoin(entries: seq<(string, string)>, domain: string)
    ensures OptionText(entries) + " " + domain == " " + SpaceJoin(Arguments(entries) + [domain])
  {
    if entries == [] {
      assert Arguments(entries) + [domain] == [domain];
    } else {
      var k, v := entries[0].0, entries[0].1;
      var rest := Arguments(entries[1..]) + [domain];
      assert Arguments(entries) + [domain] == [k, v] + rest;
      SpaceJoinPair(k, v, rest);
      OptionTextJoin(entries[1..], domain);
      Regroup(k, v, OptionText(entries[1..]), domain, SpaceJoin(rest));
    }
  }

  lemma PingCommandJoin(entries: seq<(string, string)>, domain: string)
    ensures PingBinary + OptionText(entries) + " " + domain == SpaceJoin([PingBinary] + Arguments(entries) + [domain])
  {
    var rest := Arguments(entries) + [domain];
    OptionTextJoin(entries, domain);
    assert [PingBinary] + Arguments(entries) + [domain] == [PingBinary] + rest;
    assert ([PingBinary] + rest)[1..] == rest;
    assert SpaceJoin([PingBinary] + rest) == PingBinary + " " + SpaceJoin(rest);
    assert PingBinary + OptionText(entries) + " " + domain == PingBinary + (OptionText(entries) + " " + domain);
  }

  lemma CommandWordsPlain(entries: seq<(string, string)>, domain: string)
    requires PlainEntries(entries) && PlainWord(domain)
    ensures var ws := [PingBinary] + Arguments(entries) + [domain];
      forall i :: 0 <= i < |ws| ==> PlainWord(ws[i])
  {
    var ws := [PingBinary] + Arguments(entries) + [domain];
    ArgumentsPlain(entries);
    var args := Arguments(entries);
    forall i | 0 <= i < |ws| ensures PlainWord(ws[i]) {
      if i == 0 {
        assert ws[i] == PingBinary;
      } else if i - 1 < |args| {
        assert ws[i] == args[i - 1];
      } else {
        assert ws[i] == domain;
      }
    }
  }

  /** Runtime.exec receives the binary, every key and value in index order, and the host last. */
  lemma PingCommandArguments(entries: seq<(string, string)>, domain: string)
    requires PlainEntries(entries) && PlainWord(domain)
    ensures ExecTokens(PingBinary + OptionText(entries) + " " + domain) == [PingBinary] + Arguments(entries) + [domain]
  {
    PingCommandJoin(entries, domain);
    CommandWordsPlain(entries, domain);
    SpaceJoinTokens([PingBinary] + Arguments(entries) + [domain]);
  }

  lemma {:induction false} ArgumentsPlain(entries: seq<(string, string)>)
    requires PlainEntries(entries)
    ensures forall i :: 0 <= i < |Arguments(entries)| ==> PlainWord(Arguments(entries)[i])
    ensures |Arguments(entries)| == 2 * |entries|
  {
    if entries != [] {
      var rest := entries[1..];
      assert PlainEntries(rest) by {
        forall i | 0 <= i < |rest| ensures rest[i] == entries[i + 1] { }
      }
      ArgumentsPlain(rest);
    }
  }

  /** The simple command is the binary and four flag words joined by spaces, then the host. */
  lemma SimpleCommandJoin(count: int, timeout: int, domain: string)
    ensures SimplePingCommand(count, timeout, domain)
      == SpaceJoin([PingBinary, "-c", IntToString(count), "-w", IntToString(timeout)]) + " " + domain
  {
    var c, t := IntToString(count), IntToString(timeout);
    assert " -c " == " " + "-c" + " " && " -w " == " " + "-w" + " ";
    SpaceJoinFive(PingBinary, "-c", c, "-w", t);
  }

  lemma SpaceJoinFive(a: string, b: string, c: string, d: string, e: string)
    ensures SpaceJoin([a, b, c, d, e]) == a + " " + b + " " + c + " " + d + " " + e
  {
    var ws := [a, b, c, d, e];
    assert SpaceJoin(ws[4..]) == e;
    assert SpaceJoin(ws[3..]) == d + " " + e by { assert ws[3..][1..] == ws[4..]; }
    assert SpaceJoin(ws[2..]) == c + " " + (d + " " + e) by { assert ws[2..][1..] == ws[3..]; }
    assert SpaceJoin(ws[1..]) == b + " " + (c + " " + (d + " " + e)) by { assert ws[1..][1..] == ws[2..]; }
  }

  /** The five words before the host. */
  function SimpleFlags(count: int, timeout: int): seq<string>
  {
    [PingBinary, "-c", IntToString(count), "-w", IntToString(timeout)]
  }

  lemma SimpleFlagsPlain(count: int, timeout: int)
    ensures forall i :: 0 <= i < 5 ==> PlainWord(SimpleFlags(count, timeout)[i])
  {
    assert PlainWord(PingBinary) && PlainWord("-c") && PlainWord("-w");
  }

  lemma AllPlainAppend(xs: seq<string>, ys: seq<string>)
    requires forall i :: 0 <= i < |xs| ==> PlainWord(xs[i])
    requires forall i :: 0 <= i < |ys| ==> PlainWord(ys[i])
    ensures forall i :: 0 <= i < |xs + ys| ==> PlainWord((xs + ys)[i])
  {
    forall i | 0 <= i < |xs + ys| ensures PlainWord((xs + ys)[i]) {
      if i < |xs| { assert (xs + ys)[i] == xs[i]; } else { assert (xs + ys)[i] == ys[i - |xs|]; }
    }
  }

  /** A host that is words joined by single spaces reaches exec as those words after the five flag words. */
  lemma {:induction false} SimpleCommandWords(count: int, timeout: int, host: seq<string>)
    requires host != [] && forall i :: 0 <= i < |host| ==> PlainWord(host[i])
    ensures ExecTokens(SimplePingCommand(count, timeout, SpaceJoin(host))) == SimpleFlags(count, timeout) + host
  {
    var flags := SimpleFlags(count, timeout);
    SimpleCommandJoin(count, timeout, SpaceJoin(host));
    SpaceJoinAppend(flags, host);
    SimpleFlagsPlain(count, timeout);
    AllPlainAppend(flags, host);
    SpaceJoinTokens(flags + host);
  }

  /** With a host free of whitespace, Runtime.exec receives exactly six arguments, the host last. */
  lemma SimpleCommandArguments(count: int, timeout: int, domain: string)
    requires PlainWord(domain)
    ensures ExecTokens(SimplePingCommand(count, timeout, domain))
      == [PingBinary, "-c", IntToString(count), "-w", IntToString(timeout), domain]
  {
    SimpleCommandWords(count, timeout, [domain]);
  }

  /** The host goes into the same string as the flags: a host holding spaces becomes several arguments. */
  lemma HostWithSpacesIsSplit(count: int, timeout: int)
    ensures ExecTokens(SimplePingCommand(count, timeout, "a -c 9"))
      == [PingBinary, "-c", IntToString(count), "-w", IntToString(timeout), "a", "-c", "9"]
  {
    var host := ["a", "-c", "9"];
    assert SpaceJoin(host) == "a -c 9" by {
      assert host[1..] == ["-c", "9"] && host[1..][1..] == ["9"];
    }
    assert PlainWord("a") && PlainWord("-c") && PlainWord("9");
    SimpleCommandWords(count, timeout, host);
  }

  /** The seven words getAvgRTT puts before the host. */
  function AvgRttFlags(count: int, timeout: int, ttl: int): seq<string>
  {
    [PingBinary, "-c", IntToString(count), "-W", IntToString(timeout), "-t", IntToString(ttl)]
  }

  lemma AvgRttCommandJoin(count: int, timeout: int, ttl: int, domain: string)
    ensures AvgRttCommand(count, timeout, ttl, domain) == SpaceJoin(AvgRttFlags(count, timeout, ttl)) + " " + domain
  {
    var c, t, l := IntToString(count), IntToString(timeout), IntToString(ttl);
    assert " -c " == " " + "-c" + " " && " -W " == " " + "-W" + " " && " -t " == " " + "-t" + " ";
    SpacedFlags(PingBinary, "-c", c, "-W", t, "-t", l, domain);
    SpaceJoinSeven(PingBinary, "-c", c, "-W", t, "-t", l);
  }

  /** Regrouping " f " separators of three flags into single spaces. */
  lemma SpacedFlags(b: string, f1: string, x1: string, f2: string, x2: string, f3: string, x3: string, d: string)
    ensures b + (" " + f1 + " ") + x1 + (" " + f2 + " ") + x2 + (" " + f3 + " ") + x3 + " " + d
      == b + " " + f1 + " " + x1 + " " + f2 + " " + x2 + " " + f3 + " " + x3 + " " + d
  {
  }

  lemma SpaceJoinSeven(a: string, b: string, c: string, d: string, e: string, f: string, g: string)
    ensures SpaceJoin([a, b, c, d, e, f, g]) == a + " " + b + " " + c + " " + d + " " + e + " " + f + " " + g
  {
    var ws := [a, b, c, d, e, f, g];
    assert ws[2..] == [c, d, e, f, g];
    SpaceJoinFive(c, d, e, f, g);
    assert SpaceJoin(ws[1..]) == b + " " + SpaceJoin(ws[2..]) by { assert ws[1..][1..] == ws[2..]; }
  }

  /** With a host free of whitespace, getAvgRTT's Runtime.exec receives exactly eight arguments, the host last. */
  lemma AvgRttCommandArguments(count: int, timeout: int, ttl: int, domain: string)
    requires PlainWord(domain)
    ensures ExecTokens(AvgRttCommand(count, timeout, ttl, domain)) == AvgRttFlags(count, timeout, ttl) + [domain]
  {
    var flags := AvgRttFlags(count, timeout, ttl);
    AvgRttCommandJoin(count, timeout, ttl, domain);
    SpaceJoinAppend(flags, [domain]);
    assert PlainWord(PingBinary) && PlainWord("-c") && PlainWord("-W") && PlainWord("-t");
    assert forall i :: 0 <= i < |flags| ==> PlainWord(flags[i]);
    AllPlainAppend(flags, [domain]);
    SpaceJoinTokens(flags + [domain]);
  }
}
