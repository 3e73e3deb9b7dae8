/**
 * The positional parsing of getMinRTT, getMaxRTT, getMdevRTT, getPacketLoss
 * and getIPFromUrl: indexOf, a fixed offset, substring and split. Every
 * exception these can throw (a negative or too large index, a missing piece)
 * is caught by the caller and turned into its sentinel; here it is None.
 */
module OutputSlices {
  import opened Wrappers
  import opened JavaText

  const StatsMarker := "min/avg/max/mdev"
  /** "min/avg/max/mdev = " is 19 characters long. */
  const StatsOffset := 19

  /** tempInfo.split("/"), where tempInfo starts 19 characters after the first marker. */
  function StatsPieces(out: string): Option<seq<string>>
  {
    match SubstringFrom(out, IndexOf(out, StatsMarker) + StatsOffset)
    case None => None
    case Some(t) => Some(JavaSplit(t, '/'))
  }

  /** temps[k]: an index past the end throws. */
  function Piece(pieces: Option<seq<string>>, k: nat): Option<string>
  {
    if pieces.Some? && k < |pieces.value| then Some(pieces.value[k]) else None
  }

  /** The text getMinRTT converts: piece 0. */
  function MinRttText(out: string): Option<string>
  {
    Piece(StatsPieces(out), 0)
  }

  /** The text getMaxRTT converts: piece 2. */
  function MaxRttText(out: string): Option<string>
  {
    Piece(StatsPieces(out), 2)
  }

  /** The text getMdevRTT converts: piece 3 without " ms". */
  function MdevRttText(out: string): Option<string>
  {
    match Piece(StatsPieces(out), 3)
    case None => None
    case Some(t) => Some(ReplaceAll(t, " ms", ""))
  }

  const ReceivedMarker := "received,"
  const PacketMarker := "packet"

  /** getPacketLoss: from 9 characters past "received," up to the first "packet" after it. */
  function PacketLossText(out: string): Option<string>
  {
    match SubstringFrom(out, IndexOf(out, ReceivedMarker))
    case None => None
    case Some(t) => Substring(t, 9, IndexOf(t, PacketMarker))
  }

  const FromMarker := "from"
  const SeqMarker := "icmp_seq"

  /** getIPFromUrl: from 5 characters past "from" up to 2 characters before the first "icmp_seq" after that. */
  function FromAddressText(out: string): Option<string>
  {
    match SubstringFrom(out, IndexOf(out, FromMarker) + 5)
    case None => None
    case Some(t) => Substring(t, 0, IndexOf(t, SeqMarker) - 2)
  }

  /** No occurrence of w starts in [lo, hi) when its first character is not there. */
  lemma NoneStartsIn(s: string, w: string, lo: nat, hi: nat)
    requires w != [] && lo <= hi <= |s|
    requires w[0] !in s[lo..hi]
    ensures forall j: nat :: lo <= j < hi ==> !FoundAt(s, w, j)
  {
    forall j: nat | lo <= j < hi ensures !FoundAt(s, w, j) {
      assert s[j] == s[lo..hi][j - lo];
      if j + |w| <= |s| { assert s[j..j + |w|][0] == s[j]; }
    }
  }

  /** No w starts inside pre in pre + w when pre holds no w[0]. */
  lemma FirstCharAbsent(pre: string, w: string)
    requires w != [] && w[0] !in pre
    ensures forall j: nat :: j < |pre| ==> !FoundAt(pre + w, w, j)
  {
    assert (pre + w)[0..|pre|] == pre;
    NoneStartsIn(pre + w, w, 0, |pre|);
  }

  /**
   * When w does not occur in pre + w before the join, the first w of
   * pre + w + post is at |pre|, whatever post is.
   */
  lemma FirstAtJoin(pre: string, w: string, post: string)
    requires w != [] && forall j: nat :: j < |pre| ==> !FoundAt(pre + w, w, j)
    ensures IndexOf(pre + w + post, w) == |pre|
  {
    var s := pre + w + post;
    assert s[|pre|..|pre| + |w|] == w;
    forall j: nat | j < |pre| ensures !FoundAt(s, w, j) {
      assert !FoundAt(pre + w, w, j);
      assert s[..|pre| + |w|] == pre + w;
      assert s[j..j + |w|] == s[..|pre| + |w|][j..j + |w|];
    }
    IndexOfFirst(s, w, |pre|);
  }

  // ---------------------------------------------------------------- statistics

  /**
   * When the first marker is followed (19 characters on) by "a/b/c/v ms<tail>",
   * the three reports select a, c, and v followed by the tail with every " ms" removed.
   */
  lemma StatsLineFields(out: string, k: nat, a: string, b: string, c: string, v: string, tail: string)
    requires FoundAt(out, StatsMarker, k) && forall j: nat :: j < k ==> !FoundAt(out, StatsMarker, j)
    requires k + StatsOffset <= |out|
    requires out[k + StatsOffset..] == a + "/" + (b + "/" + (c + "/" + (v + (" ms" + tail))))
    requires '/' !in a && '/' !in b && '/' !in c && '/' !in v && '/' !in tail
    requires ' ' !in v
    ensures MinRttText(out) == Some(a)
    ensures MaxRttText(out) == Some(c)
    ensures MdevRttText(out) == Some(v + ReplaceAll(tail, " ms", ""))
  {
    var d := v + (" ms" + tail);
    StatsPiecesOf(out, k, a, b, c, d);
    MsRemoved(v, tail);
    assert Piece(StatsPieces(out), 3) == Some(d);
  }

  /** replace(" ms", "") on "v ms<tail>" keeps v and removes this and every later " ms". */
  lemma MsRemoved(v: string, tail: string)
    requires ' ' !in v
    ensures ReplaceAll(v + (" ms" + tail), " ms", "") == v + ReplaceAll(tail, " ms", "")
  {
    ReplaceSkips(v, " ms" + tail, " ms", "");
    ReplaceAtStart(" ms", tail, "");
    assert "" + ReplaceAll(tail, " ms", "") == ReplaceAll(tail, " ms", "");
  }

  /** The four pieces after the first marker. */
  lemma StatsPiecesOf(out: string, k: nat, a: string, b: string, c: string, d: string)
    requires FoundAt(out, StatsMarker, k) && forall j: nat :: j < k ==> !FoundAt(out, StatsMarker, j)
    requires k + StatsOffset <= |out|
    requires out[k + StatsOffset..] == a + "/" + (b + "/" + (c + "/" + d))
    requires '/' !in a && '/' !in b && '/' !in c && '/' !in d && d != ""
    ensures StatsPieces(out) == Some([a, b, c, d])
  {
    IndexOfFirst(out, StatsMarker, k);
    JavaSplitFour(a, b, c, d, '/');
  }

  /**
   * The summary line "<pre>min/avg/max/mdev<sep>a/b/c/v ms<tail>" with the
   * first marker at the end of pre and any three characters in sep.
   */
  lemma StatsLine(pre: string, sep: string, a: string, b: string, c: string, v: string, tail: string)
    requires forall j: nat :: j < |pre| ==> !FoundAt(pre + StatsMarker, StatsMarker, j)
    requires |sep| == 3
    requires '/' !in a && '/' !in b && '/' !in c && '/' !in v && '/' !in tail
    requires ' ' !in v
    ensures var out := pre + StatsMarker + (sep + (a + "/" + (b + "/" + (c + "/" + (v + (" ms" + tail))))));
      && MinRttText(out) == Some(a) && MaxRttText(out) == Some(c)
      && MdevRttText(out) == Some(v + ReplaceAll(tail, " ms", ""))
  {
    var rest := a + "/" + (b + "/" + (c + "/" + (v + (" ms" + tail))));
    var out := pre + StatsMarker + (sep + rest);
    FirstAtJoin(pre, StatsMarker, sep + rest);
    HeaderSlices(pre, StatsMarker, sep, rest);
    StatsLineFields(out, |pre|, a, b, c, v, tail);
  }

  lemma HeaderSlices(pre: string, w: string, sep: string, rest: string)
    ensures var out := pre + w + (sep + rest);
      && out[|pre|..|pre| + |w|] == w && out[|pre| + |w| + |sep|..] == rest
  {
    var out := pre + w + (sep + rest);
    assert out == (pre + w + sep) + rest;
  }

  /** "rtt min/avg/max/mdev = 10.0/12.5/15.0/1.2 ms<tail>": 10.0, 15.0 and "1.2<tail>". */
  lemma StatsExample(tail: string)
    requires '/' !in tail && ' ' !in tail
    ensures var out := "rtt " + StatsMarker + (" = " + ("10.0" + "/" + ("12.5" + "/" + ("15.0" + "/" + ("1.2" + (" ms" + tail))))));
      && MinRttText(out) == Some("10.0") && MaxRttText(out) == Some("15.0") && MdevRttText(out) == Some("1.2" + tail)
  {
    FirstCharAbsent("rtt ", StatsMarker);
    StatsLine("rtt ", " = ", "10.0", "12.5", "15.0", "1.2", tail);
    ReplaceAbsentFirst(tail, " ms", "");
  }

  /**
   * With the first marker at k: the split starts 19 characters on, and fails
   * when fewer than 19 characters follow k; a report fails when the split has
   * too few pieces (1 for min, 3 for max, 4 for mdev).
   */
  lemma StatsSlice(out: string, k: nat)
    requires FoundAt(out, StatsMarker, k) && forall j: nat :: j < k ==> !FoundAt(out, StatsMarker, j)
    ensures StatsPieces(out) == if k + StatsOffset <= |out| then Some(JavaSplit(out[k + StatsOffset..], '/')) else None
    ensures k + StatsOffset > |out| ==> MinRttText(out).None? && MaxRttText(out).None? && MdevRttText(out).None?
    ensures k + StatsOffset <= |out| ==>
      var p := JavaSplit(out[k + StatsOffset..], '/');
      && MinRttText(out) == (if 1 <= |p| then Some(p[0]) else None)
      && MaxRttText(out) == (if 3 <= |p| then Some(p[2]) else None)
      && MdevRttText(out) == (if 4 <= |p| then Some(ReplaceAll(p[3], " ms", "")) else None)
  {
    IndexOfFirst(out, StatsMarker, k);
  }

  /**
   * Without the marker, indexOf gives -1 and the text is taken from index 18 of
   * the whole output; only an output shorter than 18 characters fails.
   */
  lemma StatsWithoutMarker(out: string)
    requires !Contains(out, StatsMarker)
    ensures StatsPieces(out) == if |out| < 18 then None else Some(JavaSplit(out[18..], '/'))
  {
    IndexOfAbsent(out, StatsMarker);
  }

  // ---------------------------------------------------------------- packet loss

  /**
   * With the first "received," at k and the first "packet" after it m
   * characters on, the loss text is out[k+9 .. k+m] when m >= 9, and the
   * method fails otherwise.
   */
  lemma PacketLossSlice(out: string, k: nat, m: nat)
    requires FoundAt(out, ReceivedMarker, k) && forall j: nat :: j < k ==> !FoundAt(out, ReceivedMarker, j)
    requires FoundAt(out, PacketMarker, k + m) && forall j: nat :: k <= j < k + m ==> !FoundAt(out, PacketMarker, j)
    ensures PacketLossText(out) == if 9 <= m then Some(out[k + 9..k + m]) else None
  {
    IndexOfFirst(out, ReceivedMarker, k);
    var t := out[k..];
    FoundInSuffix(out, PacketMarker, k, m);
    forall j: nat | j < m ensures !FoundAt(t, PacketMarker, j) {
      FoundInSuffix(out, PacketMarker, k, j);
    }
    IndexOfFirst(t, PacketMarker, m);
    if 9 <= m { assert t[9..m] == out[k + 9..k + m]; }
  }

  /**
   * The summary line "<pre>received,<loss>packet<post>": the loss text is
   * exactly what lies between the two markers.
   */
  lemma PacketLossLine(pre: string, loss: string, post: string)
    requires forall j: nat :: j < |pre| ==> !FoundAt(pre + ReceivedMarker, ReceivedMarker, j)
    requires 'p' !in loss
    ensures PacketLossText(pre + ReceivedMarker + (loss + (PacketMarker + post))) == Some(loss)
  {
    var rest := loss + (PacketMarker + post);
    var out := pre + ReceivedMarker + rest;
    FirstAtJoin(pre, ReceivedMarker, rest);
    var t := ReceivedMarker + rest;
    assert out[|pre|..] == t;
    LossAfterReceived(loss, post);
  }

  /** The text from "received," on: "packet" is first found right after the loss figure. */
  lemma LossAfterReceived(loss: string, post: string)
    requires 'p' !in loss
    ensures var t := ReceivedMarker + (loss + (PacketMarker + post));
      Substring(t, 9, IndexOf(t, PacketMarker)) == Some(loss)
  {
    assert |ReceivedMarker| == 9 && 'p' !in ReceivedMarker;
    assert PacketMarker != [] && PacketMarker[0] == 'p';
    TextBetween(ReceivedMarker, loss, PacketMarker, post);
  }

  /** In r + loss + w + post, with w's first character in neither r nor loss, the first w ends the loss text. */
  lemma TextBetween(r: string, loss: string, w: string, post: string)
    requires w != [] && w[0] !in r && w[0] !in loss
    ensures var t := r + (loss + (w + post));
      Substring(t, |r|, IndexOf(t, w)) == Some(loss)
  {
    var head := r + loss;
    var t := r + (loss + (w + post));
    assert w[0] !in head;
    FirstCharAbsent(head, w);
    FirstAtJoin(head, w, post);
    assert t == head + w + post;
    var i := IndexOf(t, w);
    assert i == |head|;
    assert t[..i] == head;
    assert head[|r|..] == loss;
  }

  /** No "received," or no "packet" after it: the method fails (getPacketLoss returns null). */
  lemma PacketLossFailures(out: string)
    ensures !Contains(out, ReceivedMarker) ==> PacketLossText(out).None?
    ensures forall k: nat ::
      (FoundAt(out, ReceivedMarker, k) && !Contains(out[k..], PacketMarker) &&
       (forall j: nat :: j < k ==> !FoundAt(out, ReceivedMarker, j))) ==> PacketLossText(out).None?
  {
    if !Contains(out, ReceivedMarker) { IndexOfAbsent(out, ReceivedMarker); }
    forall k: nat | FoundAt(out, ReceivedMarker, k) && !Contains(out[k..], PacketMarker) &&
      (forall j: nat :: j < k ==> !FoundAt(out, ReceivedMarker, j))
      ensures PacketLossText(out).None?
    {
      IndexOfFirst(out, ReceivedMarker, k);
      IndexOfAbsent(out[k..], PacketMarker);
    }
  }

  /** No marker starts inside p1 + r + p2 when its first character r occurs only between them, not followed by the marker's second character. */
  lemma OnlyStartAtJoin(p1: string, r: char, p2: string, w: string)
    requires |w| >= 2 && w[0] == r && r !in p1 && r !in p2 && p2 != [] && p2[0] != w[1]
    ensures forall j: nat :: j < |p1 + [r] + p2| ==> !FoundAt(p1 + [r] + p2 + w, w, j)
  {
    var s := p1 + [r] + p2 + w;
    assert s[0..|p1|] == p1;
    NoneStartsIn(s, w, 0, |p1|);
    assert s[|p1| + 1] == p2[0];
    if |p1| + |w| <= |s| { assert s[|p1|..|p1| + |w|][1] == s[|p1| + 1]; }
    assert s[|p1| + 1..|p1| + 1 + |p2|] == p2;
    NoneStartsIn(s, w, |p1| + 1, |p1| + 1 + |p2|);
  }

  /** "5 packets transmitted, 5 received, 0% packet loss" gives " 0% ", spaces included. */
  lemma PacketLossExample(out: string)
    requires out == "5 packets transmitted, 5 " + ReceivedMarker + (" 0% " + (PacketMarker + " loss"))
    ensures PacketLossText(out) == Some(" 0% ")
  {
    var pre := "5 packets t" + ['r'] + "ansmitted, 5 ";
    assert pre == "5 packets transmitted, 5 ";
    OnlyStartAtJoin("5 packets t", 'r', "ansmitted, 5 ", ReceivedMarker);
    PacketLossLine(pre, " 0% ", " loss");
  }

  // ---------------------------------------------------------------- from address

  /**
   * With the first "from" at k and the first "icmp_seq" from k+5 on m characters
   * later, the address is out[k+5 .. k+5+m-2] when m >= 2, and the method
   * fails otherwise.
   */
  lemma FromAddressSlice(out: string, k: nat, m: nat)
    requires FoundAt(out, FromMarker, k) && forall j: nat :: j < k ==> !FoundAt(out, FromMarker, j)
    requires k + 5 <= |out|
    requires FoundAt(out, SeqMarker, k + 5 + m) && forall j: nat :: k + 5 <= j < k + 5 + m ==> !FoundAt(out, SeqMarker, j)
    ensures FromAddressText(out) == if 2 <= m then Some(out[k + 5..k + 5 + m - 2]) else None
  {
    IndexOfFirst(out, FromMarker, k);
    var t := out[k + 5..];
    FoundInSuffix(out, SeqMarker, k + 5, m);
    forall j: nat | j < m ensures !FoundAt(t, SeqMarker, j) {
      FoundInSuffix(out, SeqMarker, k + 5, j);
    }
    IndexOfFirst(t, SeqMarker, m);
    if 2 <= m { assert t[..m - 2] == out[k + 5..k + 5 + m - 2]; }
  }

  /**
   * A reply line "<pre>from<c><addr><gap>icmp_seq<post>": the address is what
   * lies between the character after "from" and the two before "icmp_seq".
   */
  lemma FromAddressLine(pre: string, c: char, addr: string, gap: string, post: string)
    requires forall j: nat :: j < |pre| ==> !FoundAt(pre + FromMarker, FromMarker, j)
    requires |gap| == 2 && 'i' !in addr && 'i' !in gap
    ensures FromAddressText(pre + FromMarker + ([c] + (addr + (gap + (SeqMarker + post))))) == Some(addr)
  {
    var tail := addr + (gap + (SeqMarker + post));
    var rest := [c] + tail;
    var out := pre + FromMarker + rest;
    FirstAtJoin(pre, FromMarker, rest);
    assert out[|pre| + 5..] == tail by {
      assert out == (pre + FromMarker + [c]) + tail;
    }
    var front := addr + gap;
    assert tail == front + SeqMarker + post;
    assert 'i' !in front;
    FirstCharAbsent(front, SeqMarker);
    FirstAtJoin(front, SeqMarker, post);
    assert tail[..|addr|] == addr;
  }

  /** Without "from", indexOf gives -1 and the slice starts at index 4 of the output. */
  lemma FromAddressWithoutMarker(out: string)
    requires !Contains(out, FromMarker)
    ensures FromAddressText(out) == if |out| < 4 then None else Substring(out[4..], 0, IndexOf(out[4..], SeqMarker) - 2)
  {
    IndexOfAbsent(out, FromMarker);
  }

  /** "64 bytes from 10.0.0.1: icmp_seq=1 ttl=64" gives "10.0.0.1". */
  lemma FromAddressExample()
    ensures FromAddressText("64 bytes " + FromMarker + (" " + ("10.0.0.1" + (": " + (SeqMarker + "=1 ttl=64"))))) == Some("10.0.0.1")
  {
    FirstCharAbsent("64 bytes ", FromMarker);
    FromAddressLine("64 bytes ", ' ', "10.0.0.1", ": ", "=1 ttl=64");
  }
}
