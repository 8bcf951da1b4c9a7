/** Restart intervals on the byte stream: what the encoder writes between restarts, and
    how the decoder finds its way from one segment to the next, also when some are lost. */
module Restart {
  import opened Bits
  import opened BitStream
  import opened Bytes
  import opened HuffTable
  import opened Tokens
  import opened Blocks
  import opened Scans

  const M_SOF0: nat := 0xC0
  const M_RST0: nat := 0xD0

  /** The decoder's input: the bits before the next marker, that marker (0 when the data
      ends first), and the bytes after it. */
  datatype Input = Input(src: Src, marker: byte, after: seq<byte>)

  function Open(bytes: seq<byte>, starved: bool, warnings: nat): Input
  {
    var g := NextMarker(bytes);
    Input(Src(Unpack(g.payload), starved, warnings), g.marker, g.after)
  }

  // ---- The encoder ----

  /** MCUs in groups of one restart interval each. */
  function Segments(ms: seq<Mcu>, interval: nat): (r: seq<seq<Mcu>>)
    ensures |r| > 0
    decreases |ms|
  {
    if interval == 0 || |ms| <= interval then [ms]
    else [ms[..interval]] + Segments(ms[interval..], interval)
  }

  ghost predicate SegsWritable(sc: Scan, tbls: Tables, segs: seq<seq<Mcu>>)
    requires ScanOk(sc, tbls)
  {
    forall i :: 0 <= i < |segs| ==> Shaped(sc, segs[i]) && AllWritable(tbls, SegTokens(sc, tbls, segs[i]))
  }

  lemma WritableTail(sc: Scan, tbls: Tables, segs: seq<seq<Mcu>>)
    requires ScanOk(sc, tbls) && |segs| > 0 && SegsWritable(sc, tbls, segs)
    ensures Shaped(sc, segs[0]) && AllWritable(tbls, SegTokens(sc, tbls, segs[0])) && SegsWritable(sc, tbls, segs[1..])
  {
    hide ScanOk;
    hide SegTokens;
    hide AllWritable;
    hide Shaped;
  }

  /** The bytes of consecutive segments, each but the last followed by the next of the
      eight restart markers. */
  ghost function SegsBytes(sc: Scan, tbls: Tables, segs: seq<seq<Mcu>>, num: nat): seq<byte>
    requires ScanOk(sc, tbls) && |segs| > 0 && SegsWritable(sc, tbls, segs) && num < 8
    decreases |segs|
  {
    WritableTail(sc, tbls, segs);
    var here := SegBytes(BitsOf(tbls, SegTokens(sc, tbls, segs[0])));
    if |segs| == 1 then here
    else here + [0xFF, M_RST0 + num] + SegsBytes(sc, tbls, segs[1..], (num + 1) % 8)
  }

  // ---- The decoder ----

  datatype Action = Discard | Advance | Leave

  /** The decision of jpeg_resync_to_restart about a marker it did not expect. */
  function Decide(marker: byte, desired: nat): Action
  {
    if marker < M_SOF0 then Advance
    else if marker < M_RST0 || marker > M_RST0 + 7 then Leave
    else if marker == M_RST0 + (desired + 1) % 8 || marker == M_RST0 + (desired + 2) % 8 then Leave
    else if marker == M_RST0 + (desired + 7) % 8 || marker == M_RST0 + (desired + 6) % 8 then Advance
    else Discard
  }

  /** jpeg_resync_to_restart; None when the data ends before a decision. */
  function Resync(marker: byte, after: seq<byte>, desired: nat, starved: bool, warnings: nat): Option<Input>
    decreases |after|
  {
    if marker == 0 then None
    else match Decide(marker, desired)
      case Discard => Some(Open(after, false, warnings))
      case Leave => Some(Input(Src([], starved, warnings), marker, after))
      case Advance =>
        var g := NextMarker(after);
        ScanShorter(after);
        if g.marker == 0 then None else Resync(g.marker, g.after, desired, starved, warnings)
  }

  lemma ScanShorter(s: seq<byte>)
    ensures NextMarker(s).marker != 0 ==> |NextMarker(s).after| < |s|
    ensures AfterFF(s).marker != 0 ==> |AfterFF(s).after| < |s|
  {
  }

  /** process_restart: drop what is left of the segment and find the next one. */
  function ReadRestart(inp: Input, desired: nat): Option<Input>
  {
    if inp.marker == 0 then None
    else if inp.marker == M_RST0 + desired then Some(Open(inp.after, false, inp.src.warnings))
    else Resync(inp.marker, inp.after, desired, inp.src.starved, inp.src.warnings + 1)
  }

  /** Decoding MCUs with restarts: togo MCUs are left in the current interval and the next
      restart marker should be number num. None when the data ends. */
  function DecScan(sc: Scan, tbls: Tables, ms: seq<Mcu>, st: State, togo: nat, num: nat, inp: Input): (r: Option<(seq<Mcu>, Input)>)
    requires ScanOk(sc, tbls) && Shaped(sc, ms) && StateOk(sc, st)
    decreases ms
  {
    if ms == [] then Some(([], inp))
    else if sc.interval > 0 && togo == 0 then
      match ReadRestart(inp, num)
      case None => None
      case Some(inp1) => DecScanMcu(sc, tbls, ms, StartState(sc), sc.interval, (num + 1) % 8, inp1)
    else DecScanMcu(sc, tbls, ms, st, togo, num, inp)
  }

  /** The same once the restart has been dealt with. */
  function DecScanMcu(sc: Scan, tbls: Tables, ms: seq<Mcu>, st: State, togo: nat, num: nat, inp: Input): (r: Option<(seq<Mcu>, Input)>)
    requires ScanOk(sc, tbls) && Shaped(sc, ms) && StateOk(sc, st) && ms != []
    decreases ms, 0
  {
    var (m, st1, s1) := DecMcu(sc, tbls, ms[0], st, inp.src);
    DecMcuState(sc, tbls, ms[0], st, inp.src);
    Prepend([m], DecScan(sc, tbls, ms[1..], st1, if togo > 0 then togo - 1 else 0, num, inp.(src := s1)))
  }

  function Prepend(front: seq<Mcu>, r: Option<(seq<Mcu>, Input)>): Option<(seq<Mcu>, Input)>
  {
    match r case None => None case Some(x) => Some((front + x.0, x.1))
  }

  // ---- Decoding what was encoded ----

  function Flat(segs: seq<seq<Mcu>>): seq<Mcu>
  {
    if segs == [] then [] else segs[0] + Flat(segs[1..])
  }

  ghost predicate AllShaped(sc: Scan, segs: seq<seq<Mcu>>)
  {
    forall i :: 0 <= i < |segs| ==> Shaped(sc, segs[i])
  }

  lemma FlatShaped(sc: Scan, segs: seq<seq<Mcu>>)
    requires AllShaped(sc, segs)
    ensures Shaped(sc, Flat(segs))
  {
    if segs != [] { FlatShaped(sc, segs[1..]); }
  }

  lemma {:induction false} SegmentsFlat(ms: seq<Mcu>, interval: nat)
    ensures Flat(Segments(ms, interval)) == ms
    ensures IntervalSized(Segments(ms, interval), interval)
    decreases |ms|
  {
    if interval == 0 || |ms| <= interval {
      assert Flat([ms]) == ms + Flat([]) == ms;
    } else {
      SegmentsFlat(ms[interval..], interval);
      assert ms == ms[..interval] + ms[interval..];
    }
  }

  /** Every segment but the last is one full interval; the last is no longer, and only a
      scan without MCUs has an empty one. */
  ghost predicate IntervalSized(segs: seq<seq<Mcu>>, interval: nat)
  {
    && |segs| > 0
    && (|segs| > 1 ==> interval > 0 && |segs[|segs| - 1]| > 0)
    && (forall i :: 0 <= i < |segs| - 1 ==> |segs[i]| == interval)
    && (interval > 0 ==> |segs[|segs| - 1]| <= interval)
  }

  /** With a restart interval every segment has that many MCUs, but for the last; without one there
      is a single segment. */
  lemma SegmentsAre(ms: seq<Mcu>, interval: nat)
    ensures var segs := Segments(ms, interval);
            && Flat(segs) == ms && (interval == 0 ==> segs == [ms])
            && (interval > 0 ==> (forall i :: 0 <= i < |segs| - 1 ==> |segs[i]| == interval) && |segs[|segs| - 1]| <= interval)
            && (ms != [] ==> segs[|segs| - 1] != [])
  {
    SegmentsFlat(ms, interval);
  }

  function Minus(a: nat, b: nat): nat { if a >= b then a - b else 0 }

  lemma PrependTwice(a: seq<Mcu>, b: seq<Mcu>, r: Option<(seq<Mcu>, Input)>)
    ensures Prepend(a, Prepend(b, r)) == Prepend(a + b, r)
  {
    if r.Some? { assert a + (b + r.value.0) == (a + b) + r.value.0; }
  }

  lemma PrependNone(r: Option<(seq<Mcu>, Input)>)
    ensures Prepend([], r) == r
  {
    if r.Some? { assert [] + r.value.0 == r.value.0; }
  }

  lemma ShapedParts(sc: Scan, a: seq<Mcu>, b: seq<Mcu>)
    requires Shaped(sc, a) && Shaped(sc, b)
    ensures Shaped(sc, a + b)
  {
  }

  /** Within an interval, decoding MCUs one by one is decoding the run. */
  lemma {:induction false} DecScanRun(sc: Scan, tbls: Tables, seg: seq<Mcu>, more: seq<Mcu>, st: State, togo: nat, num: nat, inp: Input)
    requires ScanOk(sc, tbls) && Shaped(sc, seg) && Shaped(sc, more) && Shaped(sc, seg + more) && StateOk(sc, st)
    requires sc.interval > 0 ==> |seg| <= togo
    ensures var x := DecMcus(sc, tbls, seg, st, inp.src);
            StateOk(sc, x.1) &&
            DecScan(sc, tbls, seg + more, st, togo, num, inp)
            == Prepend(x.0, DecScan(sc, tbls, more, x.1, Minus(togo, |seg|), num, inp.(src := x.2)))
    decreases seg
  {
    if seg == [] {
      assert seg + more == more;
      PrependNone(DecScan(sc, tbls, more, st, togo, num, inp));
    } else {
      hide DecMcus;
      hide DecMcu;
      hide ReadRestart;
      DecMcusCons(sc, tbls, seg, st, inp.src);
      var x := DecMcu(sc, tbls, seg[0], st, inp.src);
      assert (seg + more)[0] == seg[0] && (seg + more)[1..] == seg[1..] + more;
      DecScanRun(sc, tbls, seg[1..], more, x.1, Minus(togo, 1), num, inp.(src := x.2));
      var y := DecMcus(sc, tbls, seg[1..], x.1, x.2);
      hide DecScan;
      PrependTwice([x.0], y.0, DecScan(sc, tbls, more, y.1, Minus(togo, |seg|), num, inp.(src := y.2)));
    }
  }

  /** What is left in the input after a segment: fewer than 8 padding ones, then the marker. */
  ghost predicate AtMarker(inp: Input, marker: byte, after: seq<byte>, warnings: nat)
  {
    && inp.marker == marker && inp.after == after && |inp.src.bits| < 8 && inp.src == Src(inp.src.bits, false, warnings)
    && forall i :: 0 <= i < |inp.src.bits| ==> inp.src.bits[i]
  }

  ghost predicate AllReady(sc: Scan, dsegs: seq<seq<Mcu>>, bsegs: seq<seq<Mcu>>)
  {
    |dsegs| == |bsegs| && forall i :: 0 <= i < |bsegs| ==> Ready(sc, dsegs[i], bsegs[i])
  }

  lemma OpenSegment(tbls: Tables, ts: seq<Token>, m: byte, after: seq<byte>, w: nat) returns (pad: Bits)
    requires AllWritable(tbls, ts) && m != 0 && m != 0xFF
    ensures Open(SegBytes(BitsOf(tbls, ts)) + [0xFF, m] + after, false, w) == Input(Feed(tbls, ts, pad, w), m, after)
    ensures |pad| < 8 && forall i :: 0 <= i < |pad| ==> pad[i]
  {
    hide BitsOf;
    var b := BitsOf(tbls, ts);
    ScanSegment(b, m, after);
    pad := PadOnes(b)[|b|..];
    assert PadOnes(b) == b + pad;
  }

  /** One segment: its MCUs are completed and the input stands at the marker. */
  lemma SegmentBytesRead(sc: Scan, tbls: Tables, dseg: seq<Mcu>, bseg: seq<Mcu>, more: seq<Mcu>, togo: nat, num: nat,
                         m: byte, after: seq<byte>, w: nat) returns (inp: Input, st: State)
    requires ScanOk(sc, tbls) && Ready(sc, dseg, bseg) && Shaped(sc, dseg) && Shaped(sc, bseg) && Shaped(sc, more)
    requires |dseg| == |bseg| && Shaped(sc, dseg + more) && (sc.interval > 0 ==> |dseg| <= togo) && sc.p.Al <= 13
    requires AllWritable(tbls, SegTokens(sc, tbls, bseg)) && m != 0 && m != 0xFF
    ensures AtMarker(inp, m, after, w) && StateOk(sc, st)
    ensures DecScan(sc, tbls, dseg + more, StartState(sc), togo, num,
                    Open(SegBytes(BitsOf(tbls, SegTokens(sc, tbls, bseg))) + [0xFF, m] + after, false, w))
            == Prepend(Targets(sc, dseg, bseg), DecScan(sc, tbls, more, st, Minus(togo, |dseg|), num, inp))
  {
    hide *;
    var ts := SegTokens(sc, tbls, bseg);
    var pad := OpenSegment(tbls, ts, m, after, w);
    var start := Input(Feed(tbls, ts, pad, w), m, after);
    SegmentReads(sc, tbls, dseg, bseg, pad, w);
    StartStateOk(sc);
    DecScanRun(sc, tbls, dseg, more, StartState(sc), togo, num, start);
    st := DecMcus(sc, tbls, dseg, StartState(sc), start.src).1;
    inp := Input(Src(pad, false, w), m, after);
    AtMarkerIntro(pad, m, after, w);
  }

  lemma AtMarkerIntro(pad: Bits, m: byte, after: seq<byte>, w: nat)
    requires |pad| < 8 && forall i :: 0 <= i < |pad| ==> pad[i]
    ensures AtMarker(Input(Src(pad, false, w), m, after), m, after, w)
  {
  }

  lemma StartStateOk(sc: Scan)
    ensures StateOk(sc, StartState(sc))
  {
  }

  lemma AtMarkerFacts(inp: Input, m: byte, after: seq<byte>, w: nat)
    requires AtMarker(inp, m, after, w)
    ensures inp.marker == m && inp.after == after && inp.src.warnings == w && !inp.src.starved
  {
  }

  /** A restart the decoder expects opens the next segment. */
  lemma RestartExpected(sc: Scan, tbls: Tables, ms: seq<Mcu>, st: State, num: nat, inp: Input)
    requires ScanOk(sc, tbls) && Shaped(sc, ms) && StateOk(sc, st) && StateOk(sc, StartState(sc)) && sc.interval > 0
    requires num < 8 && inp.marker == M_RST0 + num && ms != []
    ensures DecScan(sc, tbls, ms, st, 0, num, inp)
            == DecScan(sc, tbls, ms, StartState(sc), sc.interval, (num + 1) % 8, Open(inp.after, false, inp.src.warnings))
  {
    hide Open;
    hide DecMcu;
  }

  function SegTargets(sc: Scan, dsegs: seq<seq<Mcu>>, bsegs: seq<seq<Mcu>>): (r: seq<Mcu>)
    requires |dsegs| == |bsegs| && sc.p.Al <= 13
    requires forall i :: 0 <= i < |bsegs| ==> |dsegs[i]| == |bsegs[i]| && forall j :: 0 <= j < |bsegs[i]| ==> |dsegs[i][j]| == |bsegs[i][j]|
  {
    if dsegs == [] then [] else Targets(sc, dsegs[0], bsegs[0]) + SegTargets(sc, dsegs[1..], bsegs[1..])
  }

  /** The parts of a list of segments that are needed to read the first one. */
  ghost predicate Coded(sc: Scan, tbls: Tables, dsegs: seq<seq<Mcu>>, bsegs: seq<seq<Mcu>>)
  {
    && ScanOk(sc, tbls) && sc.p.Al <= 13 && IntervalSized(bsegs, sc.interval)
    && |dsegs| == |bsegs| && AllReady(sc, dsegs, bsegs) && SegsWritable(sc, tbls, bsegs)
  }

  lemma CodedShape(sc: Scan, tbls: Tables, dsegs: seq<seq<Mcu>>, bsegs: seq<seq<Mcu>>)
    requires Coded(sc, tbls, dsegs, bsegs)
    ensures ScanOk(sc, tbls) && sc.p.Al <= 13 && |dsegs| == |bsegs| > 0 && SegsWritable(sc, tbls, bsegs)
    ensures forall i :: 0 <= i < |bsegs| ==> |dsegs[i]| == |bsegs[i]| && forall j :: 0 <= j < |bsegs[i]| ==> |dsegs[i][j]| == |bsegs[i][j]|
    ensures AllShaped(sc, dsegs) && Shaped(sc, Flat(dsegs)) && StateOk(sc, StartState(sc))
  {
    hide OldOk;
    hide InRange;
    hide SegTokens;
    forall i | 0 <= i < |bsegs|
      ensures |dsegs[i]| == |bsegs[i]| && Shaped(sc, dsegs[i]) && forall j :: 0 <= j < |bsegs[i]| ==> |dsegs[i][j]| == |bsegs[i][j]|
    {
      assert Ready(sc, dsegs[i], bsegs[i]);
    }
    FlatShaped(sc, dsegs);
  }

  lemma CodedFirst(sc: Scan, tbls: Tables, dsegs: seq<seq<Mcu>>, bsegs: seq<seq<Mcu>>)
    requires Coded(sc, tbls, dsegs, bsegs)
    ensures |dsegs| == |bsegs| > 0 && ScanOk(sc, tbls) && Ready(sc, dsegs[0], bsegs[0]) && Shaped(sc, dsegs[0]) && Shaped(sc, bsegs[0])
    ensures AllWritable(tbls, SegTokens(sc, tbls, bsegs[0])) && |dsegs[0]| == |bsegs[0]|
    ensures sc.interval > 0 ==> |bsegs[0]| <= sc.interval
    ensures |bsegs| > 1 ==> sc.interval > 0 && |bsegs[0]| == sc.interval && Coded(sc, tbls, dsegs[1..], bsegs[1..])
  {
    hide OldOk;
    hide InRange;
    hide SegTokens;
    assert Ready(sc, dsegs[0], bsegs[0]);
  }

  lemma SegsBytesCons(sc: Scan, tbls: Tables, segs: seq<seq<Mcu>>, num: nat, tail: seq<byte>)
    requires ScanOk(sc, tbls) && |segs| > 1 && SegsWritable(sc, tbls, segs) && num < 8
    ensures SegsWritable(sc, tbls, segs[1..])
    ensures SegsBytes(sc, tbls, segs, num) + tail
            == SegBytes(BitsOf(tbls, SegTokens(sc, tbls, segs[0]))) + [0xFF, M_RST0 + num]
               + (SegsBytes(sc, tbls, segs[1..], (num + 1) % 8) + tail)
  {
    hide SegTokens;
    hide BitsOf;
    hide SegBytes;
  }

  lemma SegsBytesOne(sc: Scan, tbls: Tables, segs: seq<seq<Mcu>>, num: nat)
    requires ScanOk(sc, tbls) && |segs| == 1 && SegsWritable(sc, tbls, segs) && num < 8
    ensures SegsBytes(sc, tbls, segs, num) == SegBytes(BitsOf(tbls, SegTokens(sc, tbls, segs[0])))
  {
    hide SegTokens;
    hide BitsOf;
    hide SegBytes;
  }

  lemma FlatCons(sc: Scan, segs: seq<seq<Mcu>>, more: seq<Mcu>)
    requires segs != [] && AllShaped(sc, segs) && Shaped(sc, more)
    ensures Flat(segs) + more == segs[0] + (Flat(segs[1..]) + more)
    ensures Shaped(sc, Flat(segs[1..]) + more) && Shaped(sc, segs[0] + (Flat(segs[1..]) + more)) && Shaped(sc, Flat(segs) + more)
    ensures |segs| == 1 ==> Flat(segs[1..]) + more == more
  {
    FlatShaped(sc, segs[1..]);
    AssocMcus(segs[0], Flat(segs[1..]), more);
    assert Shaped(sc, segs[0]);
    hide Shaped;
    ShapedParts(sc, Flat(segs[1..]), more);
    ShapedParts(sc, segs[0], Flat(segs[1..]) + more);
  }

  lemma AssocMcus(a: seq<Mcu>, b: seq<Mcu>, c: seq<Mcu>)
    ensures (a + b) + c == a + (b + c) && [] + c == c
  {
  }

  lemma SegTargetsCons(sc: Scan, dsegs: seq<seq<Mcu>>, bsegs: seq<seq<Mcu>>)
    requires |dsegs| == |bsegs| > 0 && sc.p.Al <= 13
    requires forall i :: 0 <= i < |bsegs| ==> |dsegs[i]| == |bsegs[i]| && forall j :: 0 <= j < |bsegs[i]| ==> |dsegs[i][j]| == |bsegs[i][j]|
    ensures SegTargets(sc, dsegs, bsegs) == Targets(sc, dsegs[0], bsegs[0]) + SegTargets(sc, dsegs[1..], bsegs[1..])
    ensures |bsegs| == 1 ==> SegTargets(sc, dsegs, bsegs) == Targets(sc, dsegs[0], bsegs[0])
  {
    hide Targets;
    assert Targets(sc, dsegs[0], bsegs[0]) + [] == Targets(sc, dsegs[0], bsegs[0]);
  }

  /** The MCUs of the last segment still count against the interval. */
  function LeftOver(sc: Scan, bsegs: seq<seq<Mcu>>): nat
    requires |bsegs| > 0
  {
    Minus(sc.interval, |bsegs[|bsegs| - 1]|)
  }

  /** Restart after restart, the decoder completes every segment in its own interval. */
  lemma {:induction false} SegsRead(sc: Scan, tbls: Tables, dsegs: seq<seq<Mcu>>, bsegs: seq<seq<Mcu>>, more: seq<Mcu>, num: nat,
                                    m: byte, after: seq<byte>, w: nat) returns (inp: Input, st: State)
    requires Coded(sc, tbls, dsegs, bsegs) && ScanOk(sc, tbls) && SegsWritable(sc, tbls, bsegs) && |dsegs| == |bsegs| > 0
    requires Shaped(sc, more) && Shaped(sc, Flat(dsegs) + more) && StateOk(sc, StartState(sc))
    requires sc.p.Al <= 13
    requires forall i :: 0 <= i < |bsegs| ==> |dsegs[i]| == |bsegs[i]| && forall j :: 0 <= j < |bsegs[i]| ==> |dsegs[i][j]| == |bsegs[i][j]|
    requires num < 8 && m != 0 && m != 0xFF
    ensures AtMarker(inp, m, after, w) && StateOk(sc, st)
    ensures DecScan(sc, tbls, Flat(dsegs) + more, StartState(sc), sc.interval, num,
                    Open(SegsBytes(sc, tbls, bsegs, num) + [0xFF, m] + after, false, w))
            == Prepend(SegTargets(sc, dsegs, bsegs),
                       DecScan(sc, tbls, more, st, LeftOver(sc, bsegs), (num + |bsegs| - 1) % 8, inp))
    decreases |bsegs|
  {
    hide *;
    CodedShape(sc, tbls, dsegs, bsegs);
    CodedFirst(sc, tbls, dsegs, bsegs);
    FlatCons(sc, dsegs, more);
    SegTargetsCons(sc, dsegs, bsegs);
    if |bsegs| == 1 {
      SegsBytesOne(sc, tbls, bsegs, num);
      inp, st := SegmentBytesRead(sc, tbls, dsegs[0], bsegs[0], more, sc.interval, num, m, after, w);
      LeftOverIs(sc, bsegs);
    } else {
      SegsBytesCons(sc, tbls, bsegs, num, [0xFF, m] + after);
      RstRange(num);
      var tail := SegsBytes(sc, tbls, bsegs[1..], (num + 1) % 8) + [0xFF, m] + after;
      AssocTail(SegsBytes(sc, tbls, bsegs, num), SegsBytes(sc, tbls, bsegs[1..], (num + 1) % 8), m, after);
      var ms := Flat(dsegs[1..]) + more;
      var inp1, st1 := SegmentBytesRead(sc, tbls, dsegs[0], bsegs[0], ms, sc.interval, num, M_RST0 + num, tail, w);
      MinusSelf(sc.interval);
      CodedShape(sc, tbls, dsegs[1..], bsegs[1..]);
      MoreToCome(sc, tbls, dsegs, bsegs, more);
      AtMarkerFacts(inp1, M_RST0 + num, tail, w);
      RestartExpected(sc, tbls, ms, st1, num, inp1);
      inp, st := SegsRead(sc, tbls, dsegs[1..], bsegs[1..], more, (num + 1) % 8, m, after, w);
      LeftOverTail(sc, bsegs, num);
      PrependTwice(Targets(sc, dsegs[0], bsegs[0]), SegTargets(sc, dsegs[1..], bsegs[1..]),
                   DecScan(sc, tbls, more, st, LeftOver(sc, bsegs), (num + |bsegs| - 1) % 8, inp));
    }
  }

  lemma AssocTail(a: seq<byte>, b: seq<byte>, m: byte, after: seq<byte>)
    ensures a + [0xFF, m] + after == a + ([0xFF, m] + after) && b + [0xFF, m] + after == b + ([0xFF, m] + after)
  {
  }

  lemma MinusSelf(a: nat)
    ensures Minus(a, a) == 0
  {
  }

  lemma LeftOverIs(sc: Scan, bsegs: seq<seq<Mcu>>)
    requires |bsegs| == 1
    ensures LeftOver(sc, bsegs) == Minus(sc.interval, |bsegs[0]|)
  {
  }

  lemma LeftOverTail(sc: Scan, bsegs: seq<seq<Mcu>>, num: nat)
    requires |bsegs| > 1
    ensures LeftOver(sc, bsegs[1..]) == LeftOver(sc, bsegs)
    ensures ((num + 1) % 8 + |bsegs[1..]| - 1) % 8 == (num + |bsegs| - 1) % 8
  {
  }

  /** When several segments remain, MCUs remain too. */
  lemma MoreToCome(sc: Scan, tbls: Tables, dsegs: seq<seq<Mcu>>, bsegs: seq<seq<Mcu>>, more: seq<Mcu>)
    requires Coded(sc, tbls, dsegs, bsegs) && |bsegs| > 1
    ensures |dsegs| == |bsegs| && Flat(dsegs[1..]) + more != []
  {
    CodedShape(sc, tbls, dsegs, bsegs);
    assert |bsegs[1]| > 0;
  }

  lemma RstRange(num: nat)
    requires num < 8
    ensures 0 < M_RST0 + num < 0xFF
  {
  }

  // ---- The scan theorem ----

  lemma {:induction false} SegmentsReady(sc: Scan, tbls: Tables, dm: seq<Mcu>, bm: seq<Mcu>)
    requires ScanOk(sc, tbls) && sc.p.Al <= 13 && Ready(sc, dm, bm) && |dm| == |bm|
    requires forall i :: 0 <= i < |bm| ==> |dm[i]| == |bm[i]|
    ensures AllReady(sc, Segments(dm, sc.interval), Segments(bm, sc.interval))
    ensures var ds, bs := Segments(dm, sc.interval), Segments(bm, sc.interval);
            && |ds| == |bs|
            && (forall i :: 0 <= i < |bs| ==> |ds[i]| == |bs[i]| && forall j :: 0 <= j < |bs[i]| ==> |ds[i][j]| == |bs[i][j]|)
            && SegTargets(sc, ds, bs) == Targets(sc, dm, bm)
    decreases |dm|
  {
    hide OldOk;
    hide InRange;
    hide McuTarget;
    var n := sc.interval;
    if n == 0 || |dm| <= n {
      assert Targets(sc, dm, bm) + [] == Targets(sc, dm, bm);
    } else {
      ReadySlice(sc, dm, bm, n);
      SegmentsReady(sc, tbls, dm[n..], bm[n..]);
      assert Targets(sc, dm, bm) == Targets(sc, dm[..n], bm[..n]) + Targets(sc, dm[n..], bm[n..]);
    }
  }

  lemma ReadySlice(sc: Scan, dm: seq<Mcu>, bm: seq<Mcu>, n: nat)
    requires Ready(sc, dm, bm) && |dm| == |bm| && n <= |dm|
    ensures Ready(sc, dm[..n], bm[..n]) && Ready(sc, dm[n..], bm[n..])
  {
    hide OldOk;
    hide InRange;
  }

  /** The bytes of a whole scan. */
  ghost function ScanBytes(sc: Scan, tbls: Tables, bm: seq<Mcu>): seq<byte>
    requires ScanOk(sc, tbls) && SegsWritable(sc, tbls, Segments(bm, sc.interval))
  {
    SegsBytes(sc, tbls, Segments(bm, sc.interval), 0)
  }

  /** Decoding a whole scan from its bytes; marker is whatever follows it. */
  function DecodeScan(sc: Scan, tbls: Tables, dm: seq<Mcu>, bytes: seq<byte>, w: nat): Option<(seq<Mcu>, Input)>
    requires ScanOk(sc, tbls) && Shaped(sc, dm)
  {
    DecScan(sc, tbls, dm, StartState(sc), sc.interval, 0, Open(bytes, false, w))
  }

  /** A scan decodes to its blocks, restarts and all, without a warning, and the decoder
      stops at the marker that follows with only padding left. */
  lemma ScanRoundTrip(sc: Scan, tbls: Tables, dm: seq<Mcu>, bm: seq<Mcu>, m: byte, after: seq<byte>, w: nat)
    requires ScanOk(sc, tbls) && sc.p.Al <= 13 && Ready(sc, dm, bm) && |dm| == |bm| && Shaped(sc, dm)
    requires forall i :: 0 <= i < |bm| ==> |dm[i]| == |bm[i]|
    requires SegsWritable(sc, tbls, Segments(bm, sc.interval)) && m != 0 && m != 0xFF
    ensures var r := DecodeScan(sc, tbls, dm, ScanBytes(sc, tbls, bm) + [0xFF, m] + after, w);
            r.Some? && r.value.0 == Targets(sc, dm, bm) && AtMarker(r.value.1, m, after, w)
  {
    hide *;
    SegmentsReady(sc, tbls, dm, bm);
    SegmentsFlat(dm, sc.interval);
    SegmentsFlat(bm, sc.interval);
    var ds, bs := Segments(dm, sc.interval), Segments(bm, sc.interval);
    MakeCoded(sc, tbls, ds, bs);
    CodedShape(sc, tbls, ds, bs);
    NoMore(sc, Flat(ds));
    var inp, st := SegsRead(sc, tbls, ds, bs, [], 0, m, after, w);
    DecScanNone(sc, tbls, st, LeftOver(sc, bs), (0 + |bs| - 1) % 8, inp, SegTargets(sc, ds, bs));
    ScanDefs(sc, tbls, dm, bm, ScanBytes(sc, tbls, bm) + [0xFF, m] + after, w);
  }

  lemma MakeCoded(sc: Scan, tbls: Tables, ds: seq<seq<Mcu>>, bs: seq<seq<Mcu>>)
    requires ScanOk(sc, tbls) && sc.p.Al <= 13 && IntervalSized(bs, sc.interval) && AllReady(sc, ds, bs) && SegsWritable(sc, tbls, bs)
    ensures Coded(sc, tbls, ds, bs)
  {
  }

  lemma NoMore(sc: Scan, ms: seq<Mcu>)
    requires Shaped(sc, ms)
    ensures ms + [] == ms && Shaped(sc, []) && Shaped(sc, ms + [])
  {
  }

  lemma DecScanNone(sc: Scan, tbls: Tables, st: State, togo: nat, num: nat, inp: Input, front: seq<Mcu>)
    requires ScanOk(sc, tbls) && StateOk(sc, st) && Shaped(sc, [])
    ensures Prepend(front, DecScan(sc, tbls, [], st, togo, num, inp)) == Some((front, inp))
  {
    assert front + [] == front;
  }

  lemma ScanDefs(sc: Scan, tbls: Tables, dm: seq<Mcu>, bm: seq<Mcu>, bytes: seq<byte>, w: nat)
    requires ScanOk(sc, tbls) && Shaped(sc, dm) && SegsWritable(sc, tbls, Segments(bm, sc.interval))
    ensures StateOk(sc, StartState(sc))
    ensures DecodeScan(sc, tbls, dm, bytes, w) == DecScan(sc, tbls, dm, StartState(sc), sc.interval, 0, Open(bytes, false, w))
    ensures ScanBytes(sc, tbls, bm) == SegsBytes(sc, tbls, Segments(bm, sc.interval), 0)
  {
    hide DecScan;
    hide Open;
    hide SegsBytes;
  }

  // ---- Lost segments ----

  /** A marker one or two restarts ahead is left in place: the interval gets no input. */
  lemma LostInterval(sc: Scan, tbls: Tables, seg: seq<Mcu>, more: seq<Mcu>, st: State, num: nat, k: nat, inp: Input)
    returns (front: seq<Mcu>, st1: State, inp1: Input)
    requires ScanOk(sc, tbls) && Shaped(sc, seg) && Shaped(sc, more) && Shaped(sc, seg + more) && StateOk(sc, st)
    requires sc.interval == |seg| > 0 && num < 8 && 1 <= k <= 2 && inp.marker == M_RST0 + (num + k) % 8
    ensures StateOk(sc, st1) && |front| == |seg| && inp1.marker == inp.marker && inp1.after == inp.after
    ensures DecScan(sc, tbls, seg + more, st, 0, num, inp) == Prepend(front, DecScan(sc, tbls, more, st1, 0, (num + 1) % 8, inp1))
  {
    var s := Src([], inp.src.starved, inp.src.warnings + 1);
    StartStateOk(sc);
    LostRestart(sc, tbls, seg + more, st, num, k, inp);
    hide *;
    DecScanRun(sc, tbls, seg, more, StartState(sc), sc.interval, (num + 1) % 8, inp.(src := s));
    var x := DecMcus(sc, tbls, seg, StartState(sc), s);
    DecMcusLength(sc, tbls, seg, StartState(sc), s);
    MinusSelf(sc.interval);
    front, st1, inp1 := x.0, x.1, inp.(src := x.2);
  }

  lemma LostRestart(sc: Scan, tbls: Tables, ms: seq<Mcu>, st: State, num: nat, k: nat, inp: Input)
    requires ScanOk(sc, tbls) && Shaped(sc, ms) && StateOk(sc, st) && StateOk(sc, StartState(sc)) && ms != []
    requires sc.interval > 0 && num < 8 && 1 <= k <= 2 && inp.marker == M_RST0 + (num + k) % 8
    ensures DecScan(sc, tbls, ms, st, 0, num, inp)
            == DecScan(sc, tbls, ms, StartState(sc), sc.interval, (num + 1) % 8,
                       inp.(src := Src([], inp.src.starved, inp.src.warnings + 1)))
  {
    assert (num + k) % 8 != num;
    hide DecMcu;
    assert ReadRestart(inp, num) == Some(inp.(src := Src([], inp.src.starved, inp.src.warnings + 1)));
  }

  lemma DecMcusLength(sc: Scan, tbls: Tables, ms: seq<Mcu>, st: State, s: Src)
    requires ScanOk(sc, tbls) && Shaped(sc, ms) && StateOk(sc, st)
    ensures |DecMcus(sc, tbls, ms, st, s).0| == |ms|
    decreases ms
  {
    if ms != [] {
      hide DecMcu;
      DecMcusCons(sc, tbls, ms, st, s);
      var x := DecMcu(sc, tbls, ms[0], st, s);
      DecMcusLength(sc, tbls, ms[1..], x.1, x.2);
    }
  }

  /** One or two whole intervals of lost data: every MCU of them is decoded from nothing. */
  lemma {:induction false} LostIntervals(sc: Scan, tbls: Tables, lost: seq<seq<Mcu>>, more: seq<Mcu>, st: State, num: nat, inp: Input)
    returns (front: seq<Mcu>, st1: State, inp1: Input)
    requires ScanOk(sc, tbls) && AllShaped(sc, lost) && Shaped(sc, more) && Shaped(sc, Flat(lost) + more) && StateOk(sc, st)
    requires sc.interval > 0 && num < 8 && |lost| <= 2 && forall i :: 0 <= i < |lost| ==> |lost[i]| == sc.interval
    requires inp.marker == M_RST0 + (num + |lost|) % 8
    ensures StateOk(sc, st1) && |front| == |Flat(lost)| && inp1.marker == inp.marker && inp1.after == inp.after
    ensures DecScan(sc, tbls, Flat(lost) + more, st, 0, num, inp)
            == Prepend(front, DecScan(sc, tbls, more, st1, 0, (num + |lost|) % 8, inp1))
    decreases |lost|
  {
    hide *;
    if lost == [] {
      FlatNil(more);
      PrependNone(DecScan(sc, tbls, more, st, 0, num, inp));
      return [], st, inp;
    }
    ShapedTail(sc, lost);
    FlatCons(sc, lost, more);
    FlatLength(lost);
    var front0, st0, inp0 := LostInterval(sc, tbls, lost[0], Flat(lost[1..]) + more, st, num, |lost|, inp);
    var front1;
    front1, st1, inp1 := LostIntervals(sc, tbls, lost[1..], more, st0, (num + 1) % 8, inp0);
    front := front0 + front1;
    PrependTwice(front0, front1, DecScan(sc, tbls, more, st1, 0, (num + |lost|) % 8, inp1));
  }

  lemma FlatNil(more: seq<Mcu>)
    ensures Flat([]) == [] && Flat([]) + more == more
  {
  }

  lemma ShapedTail(sc: Scan, segs: seq<seq<Mcu>>)
    requires AllShaped(sc, segs) && segs != []
    ensures Shaped(sc, segs[0]) && AllShaped(sc, segs[1..])
  {
  }

  lemma FlatLength(segs: seq<seq<Mcu>>)
    requires segs != []
    ensures |Flat(segs)| == |segs[0]| + |Flat(segs[1..])|
  {
  }

  /** The bytes of a scan from which the segments `lost` and the restart markers before
      them have disappeared. */
  ghost function LossyBytes(sc: Scan, tbls: Tables, a: seq<seq<Mcu>>, lost: nat, b: seq<seq<Mcu>>, num: nat, tail: seq<byte>): seq<byte>
    requires ScanOk(sc, tbls) && |a| > 0 && |b| > 0 && SegsWritable(sc, tbls, a) && SegsWritable(sc, tbls, b) && num < 8
  {
    var next := (num + |a| - 1 + lost) % 8;
    SegsBytes(sc, tbls, a, num) + [0xFF, M_RST0 + next] + (SegsBytes(sc, tbls, b, (next + 1) % 8) + tail)
  }

  /** If one or two restart segments are lost together with the restart markers before
      them, every other segment is still decoded into its own MCUs. */
  lemma RestartRecovery(sc: Scan, tbls: Tables, da: seq<seq<Mcu>>, ba: seq<seq<Mcu>>, lost: seq<seq<Mcu>>,
                        db: seq<seq<Mcu>>, bb: seq<seq<Mcu>>, num: nat, m: byte, after: seq<byte>, w: nat)
    requires Coded(sc, tbls, da, ba) && Coded(sc, tbls, db, bb) && 1 <= |lost| <= 2 && sc.interval > 0 && num < 8
    requires |ba| > 0 && |ba[|ba| - 1]| == sc.interval && |bb| > 0 && Flat(db) != []
    requires AllShaped(sc, lost) && forall i :: 0 <= i < |lost| ==> |lost[i]| == sc.interval
    requires m != 0 && m != 0xFF
    requires ScanOk(sc, tbls) && SegsWritable(sc, tbls, ba) && SegsWritable(sc, tbls, bb)
    requires Shaped(sc, Flat(da) + (Flat(lost) + Flat(db)))
    requires sc.p.Al <= 13 && |da| == |ba| && |db| == |bb|
    requires forall i :: 0 <= i < |ba| ==> |da[i]| == |ba[i]| && forall j :: 0 <= j < |ba[i]| ==> |da[i][j]| == |ba[i][j]|
    requires forall i :: 0 <= i < |bb| ==> |db[i]| == |bb[i]| && forall j :: 0 <= j < |bb[i]| ==> |db[i][j]| == |bb[i][j]|
    ensures var r := DecScan(sc, tbls, Flat(da) + (Flat(lost) + Flat(db)), StartState(sc), sc.interval, num,
                             Open(LossyBytes(sc, tbls, ba, |lost|, bb, num, [0xFF, m] + after), false, w));
            && r.Some? && r.value.1.marker == m && r.value.1.after == after
            && exists junk: seq<Mcu> :: |junk| == |Flat(lost)|
                 && r.value.0 == SegTargets(sc, da, ba) + (junk + SegTargets(sc, db, bb))
  {
    hide *;
    var n := (num + |ba| - 1) % 8;
    var next := (n + |lost|) % 8;
    NextNum(num, |ba|, |lost|);
    CodedShape(sc, tbls, da, ba);
    CodedShape(sc, tbls, db, bb);
    MoreShaped(sc, lost, Flat(db));
    NoMore(sc, Flat(db));
    RstRange(next);
    var tail := SegsBytes(sc, tbls, bb, (next + 1) % 8) + ([0xFF, m] + after);
    var inpA, stA := SegsRead(sc, tbls, da, ba, Flat(lost) + Flat(db), num, M_RST0 + next, tail, w);
    LeftOverFull(sc, ba);
    AtMarkerFacts(inpA, M_RST0 + next, tail, w);
    var junk, stL, inpL := LostIntervals(sc, tbls, lost, Flat(db), stA, n, inpA);
    RestartExpected(sc, tbls, Flat(db), stL, next, inpL);
    AssocTail(SegsBytes(sc, tbls, bb, (next + 1) % 8), SegsBytes(sc, tbls, bb, (next + 1) % 8), m, after);
    var inpB, stB := SegsRead(sc, tbls, db, bb, [], (next + 1) % 8, m, after, inpL.src.warnings);
    AtMarkerFacts(inpB, m, after, inpL.src.warnings);
    DecScanNone(sc, tbls, stB, LeftOver(sc, bb), ((next + 1) % 8 + |bb| - 1) % 8, inpB, SegTargets(sc, db, bb));
    PrependSome(junk, SegTargets(sc, db, bb), inpB);
    PrependSome(SegTargets(sc, da, ba), junk + SegTargets(sc, db, bb), inpB);
    LossyIs(sc, tbls, ba, |lost|, bb, num, [0xFF, m] + after);
  }

  lemma NextNum(num: nat, a: nat, k: nat)
    requires a > 0
    ensures (num + a - 1 + k) % 8 == ((num + a - 1) % 8 + k) % 8
  {
  }

  lemma MoreShaped(sc: Scan, lost: seq<seq<Mcu>>, more: seq<Mcu>)
    requires AllShaped(sc, lost) && Shaped(sc, more)
    ensures Shaped(sc, Flat(lost) + more)
  {
    FlatShaped(sc, lost);
  }

  lemma LeftOverFull(sc: Scan, bsegs: seq<seq<Mcu>>)
    requires |bsegs| > 0 && |bsegs[|bsegs| - 1]| == sc.interval
    ensures LeftOver(sc, bsegs) == 0
  {
  }

  lemma PrependSome(front: seq<Mcu>, back: seq<Mcu>, inp: Input)
    ensures Prepend(front, Some((back, inp))) == Some((front + back, inp))
  {
  }

  lemma LossyIs(sc: Scan, tbls: Tables, a: seq<seq<Mcu>>, lost: nat, b: seq<seq<Mcu>>, num: nat, tail: seq<byte>)
    requires ScanOk(sc, tbls) && |a| > 0 && |b| > 0 && SegsWritable(sc, tbls, a) && SegsWritable(sc, tbls, b) && num < 8
    ensures var next := (num + |a| - 1 + lost) % 8;
            LossyBytes(sc, tbls, a, lost, b, num, tail)
            == SegsBytes(sc, tbls, a, num) + [0xFF, M_RST0 + next] + (SegsBytes(sc, tbls, b, (next + 1) % 8) + tail)
  {
    hide SegsBytes;
  }

  // ---- Repeated segments ----

  /** A marker that cannot be restart num: one of the two restarts before it, or no marker at all. */
  predicate IsOld(marker: byte, num: nat)
  {
    || 0 < marker < 0xC0
    || (0xD0 <= marker <= 0xD7 && ((marker - 0xD0 + 1) % 8 == num || (marker - 0xD0 + 2) % 8 == num))
  }

  /** Segments that come again, each with the marker before it. */
  function OldBytes(again: seq<(byte, Bits)>): seq<byte>
  {
    if again == [] then [] else [0xFF, again[0].0] + SegBytes(again[0].1) + OldBytes(again[1..])
  }

  ghost predicate AllOld(again: seq<(byte, Bits)>, num: nat)
  {
    forall i :: 0 <= i < |again| ==> IsOld(again[i].0, num)
  }

  lemma OldAdvances(marker: byte, num: nat)
    requires IsOld(marker, num) && num < 8
    ensures Decide(marker, num) == Advance && marker != 0 && marker != 0xFF && marker != M_RST0 + num
  {
  }

  lemma WantedStops(num: nat)
    requires num < 8
    ensures Decide(M_RST0 + num, num) == Discard && 0 < M_RST0 + num < 0xFF
  {
  }

  /** Resynchronisation goes past them to the marker that is wanted. */
  lemma {:induction false} SkipOld(again: seq<(byte, Bits)>, num: nat, tail: seq<byte>, starved: bool, w: nat)
    requires again != [] && AllOld(again, num) && num < 8
    ensures Resync(again[0].0, SegBytes(again[0].1) + (OldBytes(again[1..]) + ([0xFF, M_RST0 + num] + tail)), num, starved, w)
            == Some(Open(tail, false, w))
    decreases |again|
  {
    hide Decide;
    hide SegBytes;
    hide Unpack;
    hide NextMarker;
    hide IsOld;
    OldAdvances(again[0].0, num);
    WantedStops(num);
    var b, rest := again[0].1, again[1..];
    var after := SegBytes(b) + (OldBytes(rest) + ([0xFF, M_RST0 + num] + tail));
    ScanShorter(after);
    if rest == [] {
      assert after == SegBytes(b) + [0xFF, M_RST0 + num] + tail;
      ScanSegment(b, M_RST0 + num, tail);
    } else {
      OldAdvances(rest[0].0, num);
      var next := SegBytes(rest[0].1) + (OldBytes(rest[1..]) + ([0xFF, M_RST0 + num] + tail));
      assert after == SegBytes(b) + [0xFF, rest[0].0] + next;
      ScanSegment(b, rest[0].0, next);
      SkipOld(rest, num, tail, starved, w);
    }
  }

  lemma OldRestart(sc: Scan, tbls: Tables, ms: seq<Mcu>, st: State, num: nat, inp: Input, again: seq<(byte, Bits)>, tail: seq<byte>)
    requires ScanOk(sc, tbls) && Shaped(sc, ms) && StateOk(sc, st) && StateOk(sc, StartState(sc)) && sc.interval > 0 && ms != []
    requires num < 8 && again != [] && AllOld(again, num) && inp.marker == again[0].0
    requires inp.after == SegBytes(again[0].1) + (OldBytes(again[1..]) + ([0xFF, M_RST0 + num] + tail))
    ensures DecScan(sc, tbls, ms, st, 0, num, inp)
            == DecScan(sc, tbls, ms, StartState(sc), sc.interval, (num + 1) % 8, Open(tail, false, inp.src.warnings + 1))
  {
    OldAdvances(again[0].0, num);
    SkipOld(again, num, tail, inp.src.starved, inp.src.warnings + 1);
    hide Open;
    hide DecMcu;
    hide SegBytes;
    hide Resync;
    hide OldBytes;
    hide IsOld;
  }

  /** The bytes of a scan in which old segments stand before a restart marker. */
  ghost function RepeatBytes(sc: Scan, tbls: Tables, a: seq<seq<Mcu>>, again: seq<(byte, Bits)>, b: seq<seq<Mcu>>, num: nat, tail: seq<byte>): seq<byte>
    requires ScanOk(sc, tbls) && |a| > 0 && |b| > 0 && SegsWritable(sc, tbls, a) && SegsWritable(sc, tbls, b) && num < 8
  {
    var next := (num + |a| - 1) % 8;
    SegsBytes(sc, tbls, a, num) + OldBytes(again) + [0xFF, M_RST0 + next] + (SegsBytes(sc, tbls, b, (next + 1) % 8) + tail)
  }

  lemma RepeatIs(sc: Scan, tbls: Tables, a: seq<seq<Mcu>>, again: seq<(byte, Bits)>, b: seq<seq<Mcu>>, num: nat, m: byte, after: seq<byte>)
    requires ScanOk(sc, tbls) && |a| > 0 && |b| > 0 && SegsWritable(sc, tbls, a) && SegsWritable(sc, tbls, b) && num < 8 && again != []
    ensures var next := (num + |a| - 1) % 8;
            var tail := SegsBytes(sc, tbls, b, (next + 1) % 8) + [0xFF, m] + after;
            RepeatBytes(sc, tbls, a, again, b, num, [0xFF, m] + after)
            == SegsBytes(sc, tbls, a, num) + [0xFF, again[0].0]
               + (SegBytes(again[0].1) + (OldBytes(again[1..]) + ([0xFF, M_RST0 + next] + tail)))
  {
    hide *;
    var next := (num + |a| - 1) % 8;
    var y := SegsBytes(sc, tbls, b, (next + 1) % 8);
    AssocTail(y, y, m, after);
    OldBytesCons(again);
    RstRange(next);
    Regroup(SegsBytes(sc, tbls, a, num), [0xFF, again[0].0], SegBytes(again[0].1), OldBytes(again[1..]), [0xFF, M_RST0 + next], y + ([0xFF, m] + after));
    RepeatBytesIs(sc, tbls, a, again, b, num, [0xFF, m] + after);
  }

  lemma RepeatBytesIs(sc: Scan, tbls: Tables, a: seq<seq<Mcu>>, again: seq<(byte, Bits)>, b: seq<seq<Mcu>>, num: nat, tail: seq<byte>)
    requires ScanOk(sc, tbls) && |a| > 0 && |b| > 0 && SegsWritable(sc, tbls, a) && SegsWritable(sc, tbls, b) && num < 8
    ensures var next := (num + |a| - 1) % 8;
            RepeatBytes(sc, tbls, a, again, b, num, tail)
            == SegsBytes(sc, tbls, a, num) + OldBytes(again) + [0xFF, M_RST0 + next] + (SegsBytes(sc, tbls, b, (next + 1) % 8) + tail)
  {
    hide SegsBytes;
    hide OldBytes;
  }

  lemma OldBytesCons(again: seq<(byte, Bits)>)
    requires again != []
    ensures OldBytes(again) == [0xFF, again[0].0] + SegBytes(again[0].1) + OldBytes(again[1..])
  {
    hide SegBytes;
  }

  lemma Regroup(x: seq<byte>, h: seq<byte>, s: seq<byte>, o: seq<byte>, r: seq<byte>, t: seq<byte>)
    ensures x + (h + s + o) + r + t == x + h + (s + (o + (r + t)))
  {
  }

  /** If segments that were already read come again before a restart marker, with the markers of
      the two restarts before it, they are skipped: every segment is decoded into its own MCUs, and
      there is one warning. */
  lemma RepeatRecovery(sc: Scan, tbls: Tables, da: seq<seq<Mcu>>, ba: seq<seq<Mcu>>, again: seq<(byte, Bits)>,
                       db: seq<seq<Mcu>>, bb: seq<seq<Mcu>>, num: nat, m: byte, after: seq<byte>, w: nat)
    requires Coded(sc, tbls, da, ba) && Coded(sc, tbls, db, bb) && sc.interval > 0 && num < 8
    requires |ba| > 0 && |ba[|ba| - 1]| == sc.interval && |bb| > 0 && Flat(db) != []
    requires again != [] && AllOld(again, (num + |ba| - 1) % 8) && m != 0 && m != 0xFF
    requires ScanOk(sc, tbls) && SegsWritable(sc, tbls, ba) && SegsWritable(sc, tbls, bb)
    requires Shaped(sc, Flat(da) + Flat(db)) && sc.p.Al <= 13 && |da| == |ba| && |db| == |bb|
    requires forall i :: 0 <= i < |ba| ==> |da[i]| == |ba[i]| && forall j :: 0 <= j < |ba[i]| ==> |da[i][j]| == |ba[i][j]|
    requires forall i :: 0 <= i < |bb| ==> |db[i]| == |bb[i]| && forall j :: 0 <= j < |bb[i]| ==> |db[i][j]| == |bb[i][j]|
    ensures var r := DecScan(sc, tbls, Flat(da) + Flat(db), StartState(sc), sc.interval, num,
                             Open(RepeatBytes(sc, tbls, ba, again, bb, num, [0xFF, m] + after), false, w));
            && r.Some? && r.value.0 == SegTargets(sc, da, ba) + SegTargets(sc, db, bb)
            && AtMarker(r.value.1, m, after, w + 1)
  {
    hide *;
    var n := (num + |ba| - 1) % 8;
    CodedShape(sc, tbls, da, ba);
    CodedShape(sc, tbls, db, bb);
    FirstOld(again, n);
    RstRange(n);
    StartStateOk(sc);
    FlatOf(sc, da, db);
    var tail := SegsBytes(sc, tbls, bb, (n + 1) % 8) + [0xFF, m] + after;
    var rest := SegBytes(again[0].1) + (OldBytes(again[1..]) + ([0xFF, M_RST0 + n] + tail));
    RepeatIs(sc, tbls, ba, again, bb, num, m, after);
    var inpA, stA := SegsRead(sc, tbls, da, ba, Flat(db), num, again[0].0, rest, w);
    LeftOverFull(sc, ba);
    AtMarkerFacts(inpA, again[0].0, rest, w);
    OldRestart(sc, tbls, Flat(db), stA, n, inpA, again, tail);
    NoMore(sc, Flat(db));
    var inpB, stB := SegsRead(sc, tbls, db, bb, [], (n + 1) % 8, m, after, w + 1);
    DecScanNone(sc, tbls, stB, LeftOver(sc, bb), ((n + 1) % 8 + |bb| - 1) % 8, inpB, SegTargets(sc, db, bb));
    PrependSome(SegTargets(sc, da, ba), SegTargets(sc, db, bb), inpB);
  }

  lemma FirstOld(again: seq<(byte, Bits)>, num: nat)
    requires again != [] && AllOld(again, num) && num < 8
    ensures again[0].0 != 0 && again[0].0 != 0xFF
  {
    OldAdvances(again[0].0, num);
  }

  lemma FlatOf(sc: Scan, da: seq<seq<Mcu>>, db: seq<seq<Mcu>>)
    requires Shaped(sc, Flat(da) + Flat(db))
    ensures Shaped(sc, Flat(db))
  {
    forall i | 0 <= i < |Flat(db)| ensures |Flat(db)[i]| == |sc.members| { assert (Flat(da) + Flat(db))[|Flat(da)| + i] == Flat(db)[i]; }
  }

  /** A restart marker three to five ahead or behind is taken for the one that was expected, with a
      warning: the interval gets what follows it. */
  lemma FarRestart(sc: Scan, tbls: Tables, ms: seq<Mcu>, st: State, num: nat, k: nat, inp: Input)
    requires ScanOk(sc, tbls) && Shaped(sc, ms) && StateOk(sc, st) && StateOk(sc, StartState(sc)) && sc.interval > 0 && ms != []
    requires num < 8 && 3 <= k <= 5 && inp.marker == M_RST0 + (num + k) % 8
    ensures DecScan(sc, tbls, ms, st, 0, num, inp)
            == DecScan(sc, tbls, ms, StartState(sc), sc.interval, (num + 1) % 8, Open(inp.after, false, inp.src.warnings + 1))
  {
    FarDecide(num, k);
    FarRead(inp, num, k);
    hide ReadRestart;
    hide Open;
    hide DecMcu;
  }

  lemma FarDecide(num: nat, k: nat)
    requires num < 8 && 3 <= k <= 5
    ensures (num + k) % 8 != num && Decide(M_RST0 + (num + k) % 8, num) == Discard
  {
  }

  lemma FarRead(inp: Input, num: nat, k: nat)
    requires num < 8 && 3 <= k <= 5 && inp.marker == M_RST0 + (num + k) % 8
    ensures ReadRestart(inp, num) == Some(Open(inp.after, false, inp.src.warnings + 1))
  {
    FarDecide(num, k);
    hide Open;
    hide Decide;
  }

  // ---- A scan that ends early ----

  /** A marker that is neither a restart nor below SOF0, such as EOI. */
  predicate IsStop(marker: byte) { 0xC0 <= marker < 0xFF && !(0xD0 <= marker <= 0xD7) }

  lemma StopStays(inp: Input, num: nat)
    requires IsStop(inp.marker) && num < 8
    ensures ReadRestart(inp, num) == Some(Input(Src([], inp.src.starved, inp.src.warnings + 1), inp.marker, inp.after))
  {
  }

  /** At such a marker every MCU that is left gets some value, and the marker stays in place. */
  lemma {:induction false} EarlyEnd(sc: Scan, tbls: Tables, ms: seq<Mcu>, st: State, togo: nat, num: nat, inp: Input)
    requires ScanOk(sc, tbls) && Shaped(sc, ms) && StateOk(sc, st) && IsStop(inp.marker) && num < 8
    ensures var r := DecScan(sc, tbls, ms, st, togo, num, inp);
            r.Some? && |r.value.0| == |ms| && r.value.1.marker == inp.marker && r.value.1.after == inp.after
    decreases ms
  {
    hide IsStop;
    hide ReadRestart;
    hide DecMcu;
    if ms != [] {
      StartStateOk(sc);
      StopStays(inp, num);
      var due := sc.interval > 0 && togo == 0;
      var y := if due then Input(Src([], inp.src.starved, inp.src.warnings + 1), inp.marker, inp.after) else inp;
      var st1, togo1, num1 := if due then StartState(sc) else st, if due then sc.interval else togo, if due then (num + 1) % 8 else num;
      DecMcuState(sc, tbls, ms[0], st1, y.src);
      var x := DecMcu(sc, tbls, ms[0], st1, y.src);
      EarlyEnd(sc, tbls, ms[1..], x.1, if togo1 > 0 then togo1 - 1 else 0, num1, y.(src := x.2));
    }
  }

  // ---- The markers ----

  ghost function FirstBytes(sc: Scan, tbls: Tables, segs: seq<seq<Mcu>>): seq<byte>
    requires ScanOk(sc, tbls) && |segs| > 0 && SegsWritable(sc, tbls, segs)
  {
    WritableTail(sc, tbls, segs);
    SegBytes(BitsOf(tbls, SegTokens(sc, tbls, segs[0])))
  }

  lemma SegsBytesIs(sc: Scan, tbls: Tables, segs: seq<seq<Mcu>>, num: nat)
    requires ScanOk(sc, tbls) && |segs| > 0 && SegsWritable(sc, tbls, segs) && num < 8
    ensures |segs| == 1 ==> SegsBytes(sc, tbls, segs, num) == FirstBytes(sc, tbls, segs)
    ensures |segs| > 1 ==> SegsWritable(sc, tbls, segs[1..])
    ensures |segs| > 1 ==>
            SegsBytes(sc, tbls, segs, num) == FirstBytes(sc, tbls, segs) + ([0xFF, 0xD0 + num] + SegsBytes(sc, tbls, segs[1..], (num + 1) % 8))
  {
    hide ScanOk;
    hide SegTokens;
    hide SegsWritable;
    hide AllWritable;
    WritableTail(sc, tbls, segs);
  }

  lemma WritableFront(sc: Scan, tbls: Tables, segs: seq<seq<Mcu>>, n: nat)
    requires ScanOk(sc, tbls) && SegsWritable(sc, tbls, segs) && n <= |segs|
    ensures SegsWritable(sc, tbls, segs[..n]) && SegsWritable(sc, tbls, segs[n..])
    ensures n > 0 ==> FirstBytes(sc, tbls, segs[..n]) == FirstBytes(sc, tbls, segs)
  {
    hide ScanOk;
    hide SegTokens;
    hide AllWritable;
    hide Shaped;
  }

  lemma FourParts(a: seq<byte>, b: seq<byte>, c: seq<byte>, d: seq<byte>)
    ensures a + (b + (c + d)) == (a + (b + c)) + d
  {
  }

  /** Between segments i and i + 1 stands RSTm, m counting up from num through the eight of them. */
  lemma {:induction false} MarkerBetween(sc: Scan, tbls: Tables, segs: seq<seq<Mcu>>, num: nat, i: nat)
    requires ScanOk(sc, tbls) && SegsWritable(sc, tbls, segs) && num < 8 && i + 1 < |segs|
    ensures SegsWritable(sc, tbls, segs[..i + 1]) && SegsWritable(sc, tbls, segs[i + 1..])
    ensures SegsBytes(sc, tbls, segs, num)
            == SegsBytes(sc, tbls, segs[..i + 1], num) + ([0xFF, 0xD0 + (num + i) % 8] + SegsBytes(sc, tbls, segs[i + 1..], (num + i + 1) % 8))
    decreases i
  {
    hide *;
    WritableFront(sc, tbls, segs, i + 1);
    SegsBytesIs(sc, tbls, segs, num);
    SegsBytesIs(sc, tbls, segs[..i + 1], num);
    if i > 0 {
      MarkerBetween(sc, tbls, segs[1..], (num + 1) % 8, i - 1);
      assert segs[..i + 1][1..] == segs[1..][..i] && segs[1..][i..] == segs[i + 1..];
      assert ((num + 1) % 8 + (i - 1)) % 8 == (num + i) % 8 && ((num + 1) % 8 + (i - 1) + 1) % 8 == (num + i + 1) % 8;
      FourParts(FirstBytes(sc, tbls, segs), [0xFF, 0xD0 + num], SegsBytes(sc, tbls, segs[1..][..i], (num + 1) % 8),
              [0xFF, 0xD0 + (num + i) % 8] + SegsBytes(sc, tbls, segs[i + 1..], (num + i + 1) % 8));
    }
  }

  /** What becomes of an unexpected marker: the steps from the expected restart to the one found
      decide, and any other marker from SOF0 on is left for later. */
  lemma DecideIs(m: byte, desired: nat)
    requires desired < 8
    ensures m < 0xC0 ==> Decide(m, desired) == Advance
    ensures 0xC0 <= m < 0xD0 || m > 0xD7 ==> Decide(m, desired) == Leave
    ensures 0xD0 <= m <= 0xD7 ==> var steps := (m - 0xD0 - desired) % 8;
            Decide(m, desired) == if steps == 1 || steps == 2 then Leave else if steps >= 6 then Advance else Discard
  {
  }
}
