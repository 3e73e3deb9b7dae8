# PingUtil text handling, modelled in Dafny

`PingUtil` is the Android half of a React Native ping library. It builds a
`/system/bin/ping` command line, runs it, and turns the free-form text the
tool prints into values for JavaScript:
- a round-trip time;
- minimum, maximum and mean-deviation statistics;
- a packet-loss figure;
- the address a host name resolved to;
- an eight-entry report map with an outcome code.

This project models the text handling in Dafny and proves what it computes.
Process execution is not modelled.

- `wrappers.dfy`: `Option`.
- `java_text.dfy`: the `java.lang.String` operations the code relies on, with their exact edge cases.
  - `indexOf` returns -1 when the text is absent.
  - `substring` fails on a bad bound; here that is `None`, where Java throws.
  - `split` with one separator drops trailing empty pieces and returns the whole string when there is no separator.
  - `replace` replaces every occurrence.
  - `Long.toString`.
  - The whitespace tokenizer that `Runtime.exec(String)` applies to a command line.
- `patterns.dfy`: the fragment of `java.util.regex` the five extractor patterns use. These are literal characters, `[0-9]` and `[0-9]+`.
  - `InLang` is a reference semantics for these patterns.
  - `MatchAt` is a greedy matcher, proved sound and longest.
  - `Find` is the leftmost search of `Matcher.find()`, proved to give the leftmost match and its longest extent.
- `extractors.dfy`: `getRtt`, `getFromIp`, `getIP`, `getTtlEx` and `getUnkHost`.
- `ip_regex.dfy`: `ipRegex` as used by `isMatch`, with a proof that it accepts exactly four dot-separated canonical decimals in 0..255.
- `commands.dfy`: `createSimplePingCommand`, `createPingCommand` (imperative, a loop over the map entries) and the `getAvgRTT` command line. It also proves how `Runtime.exec` splits these strings into process arguments.
- `output_slices.dfy`: the `indexOf`/`substring`/`split` slicing of `getMinRTT`, `getMaxRTT`, `getMdevRTT`, `getPacketLoss` and `getIPFromUrl`.
- `assembler.dfy`: the classification block of `pingNf` as an imperative method. `Classifies` is the decision table it is proved against, with lemmas on each branch.
- `queries.dfy`: the public queries. Each takes its environment as parameters:
  - the host that `URI.getHost` would yield, as `Option<string>`;
  - the process runner, as a function from the argument words to the captured output;
  - `Float.valueOf`/`Math.round`, as partial functions.

All file paths below are relative to the repository root.

### Behaviour of the code worth knowing

- **Packet loss keeps its spaces.** `getPacketLoss` slices from 9 characters past `received,` up to the next `packet`. For `5 received, 0% packet loss` that is `" 0% "`, with both spaces (`OutputSlices.PacketLossExample`). `getPacketLossFloat` then converts `" 0 "` (`Queries.LossFloatExample`).
- **Standard error is not trimmed.** The test is the raw `respErr.length() > 2`, and every line read gets a `"\n"` appended.
- **The rtt entry is text.** `pingNf` stores the extracted reading unchanged (`"12.3"`), not rounded; `orgTtl` holds the same text.
- **No statistics entry.** The report of `pingNf` has no entry for the summary line.
- **The host is not one argument.** Every command concatenates the host into one string, which `Runtime.exec` splits at whitespace, and no parameter is checked. `Commands.HostWithSpacesIsSplit` shows a host `"a -c 9"` turning into three extra arguments.
- **A missing marker does not fail.** Without `min/avg/max/mdev`, `indexOf` returns -1 and the statistics text starts at index 18 of the whole output (`OutputSlices.StatsWithoutMarker`). Without `from`, the address slice likewise starts at index 4.

## Model

| member | source | states |
|---|---|---|
| Extractors.GetRtt | android/src/main/java/com/reactlibrary/LHPing/PingUtil.java:316-324 | "" exactly when no `time=` + digits + `.` + one digit occurs; otherwise the leftmost, longest such match minus its 5-character prefix, which is digits, a dot and one digit |
| Extractors.GetFromIp | android/src/main/java/com/reactlibrary/LHPing/PingUtil.java:306-314 | "" exactly when no `From a.b.c.d` (digit runs) occurs; otherwise the four dotted digit runs of the leftmost longest match |
| Extractors.GetIP | android/src/main/java/com/reactlibrary/LHPing/PingUtil.java:295-303 | "" exactly when no `(a.b.c.d)` occurs; otherwise the dotted digits of the leftmost match with both parentheses stripped |
| Extractors.GetTtlEx | android/src/main/java/com/reactlibrary/LHPing/PingUtil.java:277-284 | true exactly when "Time to live exceeded" occurs in the output |
| Extractors.GetUnkHost | android/src/main/java/com/reactlibrary/LHPing/PingUtil.java:286-293 | true exactly when "unknown host" occurs in standard error |
| Extractors.PhraseFound | android/src/main/java/com/reactlibrary/LHPing/PingUtil.java:278-280 | `find()` of a pattern with no metacharacters succeeds exactly when the phrase is a substring |
| Extractors.RttKeepsOneDecimal | android/src/main/java/com/reactlibrary/LHPing/PingUtil.java:317-321 | `time=12.34` gives "12.3": only one fractional digit is kept |
| Extractors.RttNeedsDecimal | android/src/main/java/com/reactlibrary/LHPing/PingUtil.java:317-323 | `time=12 ms` gives "": a reading without a fraction is not matched |
| Patterns.FindSpec | android/src/main/java/com/reactlibrary/LHPing/PingUtil.java:319 | for the patterns used, the search finds nothing exactly when no substring matches, and otherwise the leftmost start with its longest end |
| Patterns.MatchComplete | android/src/main/java/com/reactlibrary/LHPing/PingUtil.java:317-319 | the greedy match at a position ends at or after every end a matching substring can have there |
| Patterns.MatchSound | android/src/main/java/com/reactlibrary/LHPing/PingUtil.java:317-319 | the span the greedy matcher returns matches the pattern |
| IpRegex.OctetRegexMeaning | android/src/main/java/com/reactlibrary/LHPing/PingUtil.java:24-26 | one octet alternative of ipRegex accepts a text exactly when it is a canonical decimal (no leading zero) of at most 255 |
| IpRegex.IpLiteralOfOctets | android/src/main/java/com/reactlibrary/LHPing/PingUtil.java:24-26 | `a.b.c.d` with dot-free parts matches ipRegex exactly when all four parts are octets |
| IpRegex.IpLiteralParts | android/src/main/java/com/reactlibrary/LHPing/PingUtil.java:273-275 | whatever matches ipRegex is four octets joined by dots |
| IpRegex.IpLiteralExample | android/src/main/java/com/reactlibrary/LHPing/PingUtil.java:24-26 | "192.168.0.1" matches |
| IpRegex.LeadingZeroIsNoIpLiteral | android/src/main/java/com/reactlibrary/LHPing/PingUtil.java:24-26 | "192.168.00.1" does not match |
| IpRegex.LargeOctetIsNoIpLiteral | android/src/main/java/com/reactlibrary/LHPing/PingUtil.java:24-26 | "256.1.1.1" does not match |
| Commands.CreatePingCommand | android/src/main/java/com/reactlibrary/LHPing/PingUtil.java:472-480 | the binary, then " key value" for every entry in index order, then " " and the host |
| Commands.PingCommandArguments | android/src/main/java/com/reactlibrary/LHPing/PingUtil.java:472-480 | when no key, value or host holds whitespace, exec receives the binary, the keys and values in order, then the host as the last argument |
| Commands.SimpleCommandWords | android/src/main/java/com/reactlibrary/LHPing/PingUtil.java:468-470 | SimplePingCommand: for a host of whitespace-free words joined by spaces, exec receives `/system/bin/ping -c <count> -w <timeout>` and then those words |
| Commands.AvgRttCommandArguments | android/src/main/java/com/reactlibrary/LHPing/PingUtil.java:129 | AvgRttCommand: for a host without whitespace, exec receives exactly `/system/bin/ping -c <count> -W <timeout> -t <ttl> <host>` as eight arguments |
| Commands.SimpleCommandArguments | android/src/main/java/com/reactlibrary/LHPing/PingUtil.java:468-470 | for a host without whitespace, exec receives exactly `/system/bin/ping -c <count> -w <timeout> <host>` as six arguments |
| Commands.HostWithSpacesIsSplit | android/src/main/java/com/reactlibrary/LHPing/PingUtil.java:468-470 | a host "a -c 9" reaches ping as three extra arguments, including a second -c |
| OutputSlices.StatsSlice | android/src/main/java/com/reactlibrary/LHPing/PingUtil.java:110-112 | StatsPieces, MinRttText, MaxRttText, MdevRttText with the first marker at k: the split of the text 19 characters on, no result when fewer than 19 characters follow; piece 0, piece 2 (line 155) and piece 3 without " ms" (line 181), each failing when the split has too few pieces |
| OutputSlices.StatsLineFields | android/src/main/java/com/reactlibrary/LHPing/PingUtil.java:110-112 | with the first marker at k and `a/b/c/v ms<tail>` 19 characters on, min selects a, max c, and mdev v followed by the tail with every " ms" removed |
| OutputSlices.StatsLine | android/src/main/java/com/reactlibrary/LHPing/PingUtil.java:153-155 | for a summary line `<pre>min/avg/max/mdev<3 chars>a/b/c/v ms<tail>`, the three fields are a, c, and v followed by the tail with every " ms" removed |
| OutputSlices.StatsExample | android/src/main/java/com/reactlibrary/LHPing/PingUtil.java:179-181 | `rtt min/avg/max/mdev = 10.0/12.5/15.0/1.2 ms` gives 10.0, 15.0 and 1.2 followed by the rest of the output |
| OutputSlices.StatsWithoutMarker | android/src/main/java/com/reactlibrary/LHPing/PingUtil.java:110-111 | without the marker the text from index 18 is split, and only an output shorter than 18 characters fails |
| OutputSlices.PacketLossSlice | android/src/main/java/com/reactlibrary/LHPing/PingUtil.java:253-254 | PacketLossText: with the first `received,` at k and the next `packet` m on, the result is out[k+9..k+m] when m >= 9 and a failure otherwise |
| OutputSlices.PacketLossLine | android/src/main/java/com/reactlibrary/LHPing/PingUtil.java:253-254 | for `<pre>received,<loss>packet<post>` the result is exactly loss |
| OutputSlices.PacketLossFailures | android/src/main/java/com/reactlibrary/LHPing/PingUtil.java:252-258 | no `received,`, or no `packet` after it, gives the null result |
| OutputSlices.PacketLossExample | android/src/main/java/com/reactlibrary/LHPing/PingUtil.java:253-254 | `5 packets transmitted, 5 received, 0% packet loss` gives " 0% " with both spaces |
| OutputSlices.FromAddressSlice | android/src/main/java/com/reactlibrary/LHPing/PingUtil.java:45-46 | FromAddressText: with the first `from` at k and the next `icmp_seq` m characters past k+5, the result is out[k+5..k+5+m-2] when m >= 2 and a failure otherwise |
| OutputSlices.FromAddressLine | android/src/main/java/com/reactlibrary/LHPing/PingUtil.java:45-46 | for `<pre>from<c><addr><2 chars>icmp_seq<post>` the result is exactly addr |
| OutputSlices.FromAddressWithoutMarker | android/src/main/java/com/reactlibrary/LHPing/PingUtil.java:45 | without `from` the slice starts at index 4 of the output |
| OutputSlices.FromAddressExample | android/src/main/java/com/reactlibrary/LHPing/PingUtil.java:45-46 | `64 bytes from 10.0.0.1: icmp_seq=1 ttl=64` gives "10.0.0.1" |
| Assembler.Assemble | android/src/main/java/com/reactlibrary/LHPing/PingUtil.java:356-391 | the report satisfies the decision table; outcome "1" exactly when stderr has at most 2 characters and a time= reading occurs; "2" exactly when stderr is longer and mentions an unknown host |
| Assembler.PingNf | android/src/main/java/com/reactlibrary/LHPing/PingUtil.java:326-405 | a failed run gives the map with "fail"/"fail"; otherwise the classification of the captured streams and elapsed time |
| Assembler.ClassifiesUnique | android/src/main/java/com/reactlibrary/LHPing/PingUtil.java:362-391 | the decision table determines the whole report |
| Assembler.OutcomeCodes | android/src/main/java/com/reactlibrary/LHPing/PingUtil.java:363-381 | matchesAddress is always "0", "1" or "2" |
| Assembler.ErrorOverrides | android/src/main/java/com/reactlibrary/LHPing/PingUtil.java:364-371 | stderr longer than 2 characters: rtt "-1", and "2" if stderr contains "unknown host", else "0" |
| Assembler.ErrorIgnoresOutput | android/src/main/java/com/reactlibrary/LHPing/PingUtil.java:364-371 | under such an error, rtt and outcome are the same whatever stdout holds |
| Assembler.TtlFallback | android/src/main/java/com/reactlibrary/LHPing/PingUtil.java:373-379 | short stderr and no time= reading: outcome "0", rtt the decimal elapsed time if "Time to live exceeded" occurs, else "-1" |
| Assembler.DirectMatch | android/src/main/java/com/reactlibrary/LHPing/PingUtil.java:380-382 | short stderr and a time= reading: outcome "1", rtt equals orgTtl, which is the leftmost reading |
| Assembler.RttShapes | android/src/main/java/com/reactlibrary/LHPing/PingUtil.java:362-383 | rtt is "-1", a reading with outcome "1", or calTime after an exceeded TTL |
| Assembler.ReplyExample | android/src/main/java/com/reactlibrary/LHPing/PingUtil.java:358-386 | stdout `time=12.34` with empty stderr gives rtt "12.3" and outcome "1" |
| JavaText.NatToStringRoundTrip | android/src/main/java/com/reactlibrary/LHPing/PingUtil.java:388 | a non-negative long prints as a canonical decimal whose value is the number |
| JavaText.IntToStringMeaning | android/src/main/java/com/reactlibrary/LHPing/PingUtil.java:388 | the calTime text of any delta: a canonical decimal of delta when delta >= 0, and "-" followed by a canonical decimal of -delta when delta < 0 |
| Queries.Rounded | android/src/main/java/com/reactlibrary/LHPing/PingUtil.java:112-117 | -1 for a missing text or a failed conversion; otherwise exactly the converted value |
| Queries.GetPacketLossFloat | android/src/main/java/com/reactlibrary/LHPing/PingUtil.java:215-225 | -1 for a null loss text or a failed conversion; otherwise exactly the conversion of the loss text with every '%' removed (which holds no '%') |
| Queries.LossFloatOfSummary | android/src/main/java/com/reactlibrary/LHPing/PingUtil.java:215-222 | for a loss text x%y the value is the conversion of x + y, or -1 when that is no number |
| Queries.LossFloatExample | android/src/main/java/com/reactlibrary/LHPing/PingUtil.java:219 | the loss text " 0% " is converted as " 0 " |
| Queries.GetAvgRtt | android/src/main/java/com/reactlibrary/LHPing/PingUtil.java:128-135 | pingNf of the `-c -W -t` command: "fail" map on a failed run, else the classification of what it captured |
| Queries.NoDomainSentinels | android/src/main/java/com/reactlibrary/LHPing/PingUtil.java:102-106 | without a host every query gives -1 or null |
| Queries.NoOutputSentinels | android/src/main/java/com/reactlibrary/LHPing/PingUtil.java:107-117 | when the ping cannot be run every statistics query gives -1 or null |
| Queries.MinRttQuery | android/src/main/java/com/reactlibrary/LHPing/PingUtil.java:102-118 | GetMinRtt on an output whose first marker is at k: -1 unless 19 characters follow and the split has a piece 0, which is then converted |
| Queries.MaxRttQuery | android/src/main/java/com/reactlibrary/LHPing/PingUtil.java:145-161 | GetMaxRtt likewise with piece 2 |
| Queries.MdevRttQuery | android/src/main/java/com/reactlibrary/LHPing/PingUtil.java:171-187 | GetMdevRtt likewise with piece 3, " ms" removed |
| Queries.StatisticsOfSummary | android/src/main/java/com/reactlibrary/LHPing/PingUtil.java:102-186 | for an output holding the summary line, getMinRTT, getMaxRTT and getMdevRTT convert fields 0, 2 and 3 (every " ms" removed) |
| Queries.LossOfSummary | android/src/main/java/com/reactlibrary/LHPing/PingUtil.java:245-259 | for an output `<pre>received,<loss>packet<post>`, getPacketLoss gives loss |
| Queries.PacketLossQuery | android/src/main/java/com/reactlibrary/LHPing/PingUtil.java:245-260 | GetPacketLoss with the first `received,` at k and the next `packet` m on: out[k+9..k+m] when m >= 9, null otherwise |
| Queries.IpFromUrlQuery | android/src/main/java/com/reactlibrary/LHPing/PingUtil.java:34-52 | GetIPFromUrl for a host name with the first `from` at k and the next `icmp_seq` m past k+5: out[k+5..k+5+m-2] when m >= 2, null otherwise |
| Queries.IpLiteralNotProbed | android/src/main/java/com/reactlibrary/LHPing/PingUtil.java:34-41 | an address literal is returned unchanged, the same for every process runner |
| Queries.IpLiteralExampleNotProbed | android/src/main/java/com/reactlibrary/LHPing/PingUtil.java:39-41 | "192.168.0.1" is returned without running ping |
| Queries.HostnameFromReply | android/src/main/java/com/reactlibrary/LHPing/PingUtil.java:42-47 | a host name is answered with the address in the first reply line of one ping (count 1, timeout 100) |
| Queries.HostnameWithoutOutput | android/src/main/java/com/reactlibrary/LHPing/PingUtil.java:42-51 | a host name whose ping cannot be run has no address |

## Left out

- Running processes is not modelled. `Runtime.exec`, the `BufferedReader` read loops, `reader.ready()` and `process.destroy()` (330-354, 407-430) become parameters: `run` returns both streams and the elapsed time, `probe` returns standard output. Either returns `None` where Java throws an `IOException`. Each line read gets `"\n"` appended; the captured strings are taken as given.
- `ping(String, int)` (432-466) is not modelled. It is a busy-wait on the wall clock, and no modelled operation calls it.
- `System.currentTimeMillis` is not modelled. The elapsed time is the parameter `delta`, a possibly negative `int`, as a difference of two longs can be.
- `getDomain` (263-271) is not modelled. It wraps `URI.create(url).getHost()`; the host is an `Option<string>` parameter. `getAvgRTT` uses its argument directly as the host, and so does the model.
- `Float.valueOf` and `Math.round` (112, 155, 181, 199, 219) are not modelled, being floating point. They are the parameters `round` and `parse`, and a `float` result is a `real`.
- The one-argument overloads (60-92, 195-204, 233-235) are not separate members. They call the longer forms with count 1 and timeout 100 (`Queries.DefaultCount`, `DefaultTimeout`), and `getAvgRTT(url)` adds ttl 25.
- The React bridge is not modelled. `WritableMap` and `Arguments.createMap` become the `Report` and `PingResult` datatypes; `Log.w` and `printStackTrace` are dropped.
- Strings are sequences of characters, which matches Java's UTF-16 indexing only for text within the Basic Multilingual Plane. Ping output is ASCII.
- `java.util.regex` as a whole is not modelled. Only its behaviour on the five patterns in use is: literal characters, `[0-9]`, `[0-9]+`. For these, no digit run is followed by a token that can match a digit (`Patterns.WellFormed`), so Java's greedy backtracking finds the greedy match. The model proves the greedy match is the longest one; the equivalence with Java's backtracking is argued, not proved.
- Commands.CreatePingCommand: the entries are pairs of strings, so an ArrayMap holding a null key or value, which Java's concatenation prints as "null", is not represented. No modelled operation calls `createPingCommand`.
- `isMatch` (273-275) is modelled for `ipRegex` only. The regex is a predicate transcribed from its alternatives, then proved equal to the numeric octet description.
