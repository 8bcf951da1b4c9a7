/** The parts of jdmarker.c an entropy decoder relies on between restart intervals:
    next_marker, read_restart_marker and jpeg_resync_to_restart. */
module MarkerReader {
  import opened Bits
  import opened Bytes
  import opened BitStream
  import opened HuffTable
  import opened BitReader
  import opened Restart

  /** What a decoder at position p with an empty bit buffer has before it: the rest of the
      segment, its closing marker, and the bytes after that. */
  ghost function InputAt(data: seq<byte>, p: nat, unread: nat, starved: bool, warnings: nat): Input
    requires p <= |data| && unread < 256
  {
    Input(Src(Ahead(data, p, unread), starved, warnings), Closing(data, p, unread).0, Closing(data, p, unread).1)
  }

  /** The marker ahead and all before it have arrived. */
  ghost predicate Arrived(data: seq<byte>, inp: Input, avail: nat) { |data| <= avail + |inp.after| }

  /** The marker ahead is one that resynchronisation warns about and then skips, looking for
      another. */
  predicate SkipsMarker(inp: Input, num: nat)
  {
    inp.marker != 0 && inp.marker != M_RST0 + num && Decide(inp.marker, num) == Advance
  }

  /** After a refused attempt at restart num, the input y instead of x: the next attempt warns
      in the same cases. */
  ghost predicate StillSkips(data: seq<byte>, x: Input, y: Input, num: nat, avail: nat)
  {
    && (SkipsMarker(x, num) <==> SkipsMarker(y, num))
    && ((x.marker, x.after) == (y.marker, y.after) || (Arrived(data, x, avail) && Arrived(data, y, avail)))
  }

  /** next_marker: on to the next FF that is followed by neither FF nor 00. A refusal keeps
      what was skipped skipped, which changes nothing for the next attempt. */
  method SeekMarker(d: Decompress) returns (ok: bool)
    requires d.Valid(d.saved) && d.saved.bitsLeft == 0
    modifies d`saved, d`unreadMarker
    ensures d.Valid(d.saved) && d.saved.bitsLeft == 0 && d.saved.getBuffer == old(d.saved.getBuffer)
    ensures ok ==> 0 < d.unreadMarker < 256
    ensures ok ==> (d.unreadMarker, d.data[d.saved.next..]) == Closing(d.data, old(d.saved.next), 0)
    ensures ok ==> d.saved.next > old(d.saved.next)
    ensures !ok ==> d.unreadMarker == old(d.unreadMarker)
    ensures !ok ==> Closing(d.data, d.saved.next, 0) == Closing(d.data, old(d.saved.next), 0)
    ensures !ok ==> d.avail < |d.data| || Closing(d.data, d.saved.next, 0).0 == 0
    ensures !ok ==> Closing(d.data, d.saved.next, 0).0 == 0 || |d.data| > d.avail + |Closing(d.data, d.saved.next, 0).1|
  {
    ghost var goal := Closing(d.data, d.saved.next, 0);
    while true
      invariant old(d.saved.next) <= d.saved.next <= d.avail <= |d.data| && d.unreadMarker == old(d.unreadMarker)
      invariant d.saved.bitsLeft == 0 && d.saved.getBuffer == old(d.saved.getBuffer)
      invariant Closing(d.data, d.saved.next, 0) == goal
      decreases d.avail - d.saved.next
    {
      var found := SkipToFF(d);
      if !found {
        ScanShorter(d.data[d.avail..]);
        return false;
      }
      var p := d.saved.next;
      var arrived, c, pos := d.SkipFF(p + 1);
      if !arrived {
        if d.avail == |d.data| { ScanAllFF(d.data, p); }
        ScanOnlyFF(d.data, p, d.avail);
        return false;
      }
      ScanFF(d.data, p, pos, c);
      d.saved := d.saved.(next := pos);
      if c != 0 {
        d.unreadMarker := c;
        return true;
      }
    }
  }

  /** Within a run of FFs the marker is still to come. */
  lemma ScanOnlyFF(data: seq<byte>, p: nat, q: nat)
    requires p < q <= |data| && forall i :: p <= i < q ==> data[i] == 0xFF
    ensures Closing(data, p, 0).0 == 0 || |data| > q + |Closing(data, p, 0).1|
  {
    assert data[p..][1..] == data[p + 1..];
    SkipFFs(data, p + 1, q);
    ScanShorter(data[q..]);
  }

  /** Discard bytes up to an FF, syncing after each so that the source may forget them. */
  method SkipToFF(d: Decompress) returns (found: bool)
    requires d.saved.next <= d.avail <= |d.data|
    modifies d`saved
    ensures old(d.saved.next) <= d.saved.next <= d.avail && d.saved == old(d.saved).(next := d.saved.next)
    ensures Closing(d.data, d.saved.next, 0) == Closing(d.data, old(d.saved.next), 0)
    ensures found ==> d.saved.next < d.avail && d.data[d.saved.next] == 0xFF
    ensures !found ==> d.saved.next == d.avail
  {
    while d.saved.next < d.avail && d.data[d.saved.next] != 0xFF
      invariant old(d.saved.next) <= d.saved.next <= d.avail && d.saved == old(d.saved).(next := d.saved.next)
      invariant Closing(d.data, d.saved.next, 0) == Closing(d.data, old(d.saved.next), 0)
    {
      ScanPlain(d.data, d.saved.next);
      d.saved := d.saved.(next := d.saved.next + 1);
    }
    found := d.saved.next < d.avail;
  }

  /** The decision of jpeg_resync_to_restart, with its action numbers 1 to 3. */
  method ChooseAction(marker: byte, desired: nat) returns (action: nat)
    requires desired < 8
    ensures action == match Decide(marker, desired) case Discard => 1 case Advance => 2 case Leave => 3
  {
    if marker < M_SOF0 {
      action := 2;
    } else if marker < M_RST0 || marker > M_RST0 + 7 {
      action := 3;
    } else {
      if marker == M_RST0 + (desired + 1) % 8 || marker == M_RST0 + (desired + 2) % 8 {
        action := 3;
      } else if marker == M_RST0 + (desired + 8 - 1) % 8 || marker == M_RST0 + (desired + 8 - 2) % 8 {
        action := 2;
      } else {
        action := 1;
      }
    }
  }

  /** jpeg_resync_to_restart. When it has to give up for want of data, it can be called again. */
  method ResyncToRestart(d: Decompress, desired: nat) returns (ok: bool)
    requires d.Valid(d.saved) && d.saved.bitsLeft == 0 && d.unreadMarker != 0 && desired < 8
    modifies d`saved, d`unreadMarker, d`warnings
    ensures d.Valid(d.saved) && d.saved.bitsLeft == 0
    ensures var r := Resync(old(d.unreadMarker), d.data[old(d.saved.next)..], desired, d.insufficientData, old(d.warnings) + 1);
            && (ok ==> r == Some(InputAt(d.data, d.saved.next, d.unreadMarker, d.unreadMarker != 0 && d.insufficientData, d.warnings)))
            && (!ok ==> Resync(d.unreadMarker, d.data[d.saved.next..], desired, d.insufficientData, old(d.warnings) + 1) == r)
            && (!ok ==> Decide(d.unreadMarker, desired) == Advance && d.unreadMarker != 0 && (d.avail < |d.data| || r == None))
    ensures !ok ==> Decide(old(d.unreadMarker), desired) == Advance
    ensures d.warnings == old(d.warnings) + 1
  {
    hide NextMarker;
    d.warnings := d.warnings + 1;
    ghost var r := Resync(d.unreadMarker, d.data[d.saved.next..], desired, d.insufficientData, d.warnings);
    while true
      invariant d.saved.next <= d.avail <= |d.data| && d.saved.bitsLeft == 0 && 0 < d.unreadMarker < 256
      invariant d.Valid(d.saved) && d.warnings == old(d.warnings) + 1
      invariant Resync(d.unreadMarker, d.data[d.saved.next..], desired, d.insufficientData, d.warnings) == r
      invariant d.unreadMarker == old(d.unreadMarker) || Decide(old(d.unreadMarker), desired) == Advance
      decreases d.avail - d.saved.next
    {
      var action := ChooseAction(d.unreadMarker, desired);
      if action == 1 {
        d.unreadMarker := 0;
        return true;
      } else if action == 2 {
        ok := SeekMarker(d);
        if !ok { return; }
      } else {
        return true;
      }
    }
  }

  /** The same input, with dw more warnings issued on the way. */
  ghost predicate SameInput(x: Option<Input>, y: Option<Input>, dw: int)
  {
    if x.None? || y.None? then x == y
    else x.value.(src := y.value.src) == y.value && x.value.src.bits == y.value.src.bits
         && x.value.src.starved == y.value.src.starved && y.value.src.warnings == x.value.src.warnings + dw
  }

  /** The number of warnings so far has no influence on where resynchronisation ends. */
  lemma {:induction false} ResyncBlind(marker: byte, after: seq<byte>, desired: nat, starved: bool, w: nat, v: nat)
    ensures SameInput(Resync(marker, after, desired, starved, w), Resync(marker, after, desired, starved, v), v - w)
    ensures Resync(marker, after, desired, starved, w).Some? ==> Resync(marker, after, desired, starved, w).value.src.warnings == w
    decreases |after|
  {
    hide NextMarker;
    hide Decide;
    if marker != 0 && Decide(marker, desired) == Advance {
      var g := NextMarker(after);
      ScanShorter(after);
      if g.marker != 0 { ResyncBlind(g.marker, g.after, desired, starved, w, v); }
    }
  }

  /** read_restart_marker, for the restart marker numbered num. A refused attempt has warned
      exactly if the marker it found is one to be skipped. */
  method ReadRestartMarker(d: Decompress, num: nat) returns (ok: bool)
    requires d.Valid(d.saved) && d.saved.bitsLeft == 0 && num < 8
    modifies d`saved, d`unreadMarker, d`warnings
    ensures d.Valid(d.saved) && d.saved.bitsLeft == 0 && d.warnings >= old(d.warnings)
    ensures var r := ReadRestart(InputAt(d.data, old(d.saved.next), old(d.unreadMarker), d.insufficientData, old(d.warnings)), num);
            && (ok ==> r == Some(InputAt(d.data, d.saved.next, d.unreadMarker, d.unreadMarker != 0 && d.insufficientData, d.warnings)))
            && (!ok ==> SameInput(ReadRestart(InputAt(d.data, d.saved.next, d.unreadMarker, d.insufficientData, d.warnings), num), r,
                                  old(d.warnings) - d.warnings))
            && (!ok ==> d.avail < |d.data| || r == None)
    ensures var x := InputAt(d.data, old(d.saved.next), old(d.unreadMarker), d.insufficientData, old(d.warnings));
            && (!ok ==> d.warnings == old(d.warnings) + if SkipsMarker(x, num) && Arrived(d.data, x, d.avail) then 1 else 0)
            && (!ok ==> StillSkips(d.data, x, InputAt(d.data, d.saved.next, d.unreadMarker, d.insufficientData, d.warnings), num, d.avail))
  {
    hide NextMarker;
    hide Resync;
    ghost var start := InputAt(d.data, d.saved.next, d.unreadMarker, d.insufficientData, d.warnings);
    ok := true;
    if d.unreadMarker == 0 {
      ok := SeekMarker(d);
      if !ok { return; }
    }
    assert start.marker == d.unreadMarker && start.after == d.data[d.saved.next..];
    if d.unreadMarker == M_RST0 + num {
      d.unreadMarker := 0;
    } else {
      ok := ResyncToRestart(d, num);
      if !ok {
        NotExpected(d.unreadMarker, num);
        ResyncBlind(d.unreadMarker, d.data[d.saved.next..], num, d.insufficientData, d.warnings + 1, old(d.warnings) + 1);
      }
    }
  }

  /** A marker to be skipped is not the one that was expected. */
  lemma NotExpected(marker: byte, num: nat)
    requires Decide(marker, num) == Advance && num < 8
    ensures marker != M_RST0 + num
  {
  }
}
