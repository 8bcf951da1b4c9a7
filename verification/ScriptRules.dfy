/** Which scripts validate_script accepts, said coefficient by coefficient rather than scan by scan,
    and how that compares with what the decoder takes without complaint. */
module ScriptRules {
  import opened Script

  /** Scan s has component c. */
  predicate Lists(s: ScanInfo, c: int) { exists i :: 0 <= i < 4 && i < s.compsInScan && s.componentIndex[i] == c }

  /** One to four components of the n there are, in increasing order. */
  predicate GoodComps(s: ScanInfo, n: nat)
  {
    && 1 <= s.compsInScan <= 4
    && (forall i :: 0 <= i < s.compsInScan ==> 0 <= s.componentIndex[i] < n)
    && forall i, j :: 0 <= i < j < s.compsInScan ==> s.componentIndex[i] < s.componentIndex[j]
  }

  lemma GoodCompsIs(s: ScanInfo, n: nat)
    ensures CompsOk(s, n) <==> GoodComps(s, n)
  {
    if CompsOk(s, n) {
      forall i, j | 0 <= i < j < s.compsInScan ensures s.componentIndex[i] < s.componentIndex[j] { Script.Increasing(s, n, i, j); }
    }
  }

  lemma ListsIs(s: ScanInfo, c: int)
    requires s.compsInScan <= MAX_COMPS_IN_SCAN
    ensures Lists(s, c) <==> InScan(s, c)
    ensures Lists(s, c) <==> c in SentBy(s)
  {
    if InScan(s, c) {
      var i :| 0 <= i < s.compsInScan && s.componentIndex[i] == c;
      assert Lists(s, c);
    }
  }

  // ---- Sequential scripts ----

  /** The scans divide up the components: each is in exactly one of them. */
  ghost predicate Divides(script: seq<ScanInfo>, n: nat)
  {
    && (forall i :: 0 <= i < |script| ==> Whole(script[i], n))
    && forall c: nat :: c < n ==> Once(script, c)
  }

  /** Scan i and no other has component c. */
  ghost predicate Only(script: seq<ScanInfo>, c: int, i: nat)
  {
    i < |script| && Lists(script[i], c) && forall j :: 0 <= j < |script| && j != i ==> !Lists(script[j], c)
  }

  ghost predicate Once(script: seq<ScanInfo>, c: int) { exists i: nat :: Only(script, c, i) }

  ghost predicate Listed(script: seq<ScanInfo>, c: int) { exists i :: 0 <= i < |script| && Lists(script[i], c) }

  predicate Whole(s: ScanInfo, n: nat) { GoodComps(s, n) && s.Ss == 0 && s.Se == 63 && s.Ah == 0 && s.Al == 0 }

  /** The same for the components that are not in `sent`. */
  ghost predicate DividesRest(script: seq<ScanInfo>, n: nat, sent: set<int>)
  {
    && (forall i :: 0 <= i < |script| ==> Whole(script[i], n))
    && (forall i, c :: 0 <= i < |script| && Lists(script[i], c) ==> c !in sent)
    && (forall i, j, c :: 0 <= i < j < |script| && Lists(script[i], c) ==> !Lists(script[j], c))
    && forall c :: 0 <= c < n && c !in sent ==> Listed(script, c)
  }

  lemma {:induction false} RestDivides(script: seq<ScanInfo>, n: nat, sent: set<int>)
    ensures SendsRest(script, n, sent) <==> DividesRest(script, n, sent)
    decreases script
  {
    if script != [] {
      GoodCompsIs(script[0], n);
      if Whole(script[0], n) {
        RestDivides(script[1..], n, sent + SentBy(script[0]));
        hide Lists;
        hide GoodComps;
        FirstDivides(script, n, sent);
      }
    }
  }

  lemma FirstDivides(script: seq<ScanInfo>, n: nat, sent: set<int>)
    requires script != [] && Whole(script[0], n) && script[0].compsInScan <= MAX_COMPS_IN_SCAN
    ensures DividesRest(script, n, sent) <==>
            SentBy(script[0]) !! sent && DividesRest(script[1..], n, sent + SentBy(script[0]))
  {
    forall c ensures Lists(script[0], c) <==> c in SentBy(script[0]) { ListsIs(script[0], c); }
    hide Lists;
    hide SentBy;
    hide Whole;
    var rest := script[1..];
    if DividesRest(script, n, sent) {
      forall i, c | 0 <= i < |rest| && Lists(rest[i], c) ensures c !in sent + SentBy(script[0]) {
        assert rest[i] == script[i + 1];
      }
      forall i, j, c | 0 <= i < j < |rest| && Lists(rest[i], c) ensures !Lists(rest[j], c) {
        assert rest[i] == script[i + 1] && rest[j] == script[j + 1];
      }
      forall c | 0 <= c < n && c !in sent + SentBy(script[0]) ensures Listed(rest, c) {
        assert Listed(script, c);
        var i :| 0 <= i < |script| && Lists(script[i], c);
        assert rest[i - 1] == script[i];
      }
    }
    if SentBy(script[0]) !! sent && DividesRest(rest, n, sent + SentBy(script[0])) {
      forall i | 0 <= i < |script| ensures Whole(script[i], n) { if i > 0 { assert script[i] == rest[i - 1]; } }
      forall i, c | 0 <= i < |script| && Lists(script[i], c) ensures c !in sent { if i > 0 { assert script[i] == rest[i - 1]; } }
      forall i, j, c | 0 <= i < j < |script| && Lists(script[i], c) ensures !Lists(script[j], c) {
        assert script[j] == rest[j - 1];
        if i > 0 { assert script[i] == rest[i - 1]; }
      }
      forall c | 0 <= c < n && c !in sent ensures Listed(script, c) {
        if c !in SentBy(script[0]) {
          assert Listed(rest, c);
          var i :| 0 <= i < |rest| && Lists(rest[i], c);
          assert script[i + 1] == rest[i];
        }
      }
    }
  }

  lemma DividesIs(script: seq<ScanInfo>, n: nat)
    ensures DividesRest(script, n, {}) <==> Divides(script, n)
  {
    hide Lists;
    hide GoodComps;
    if DividesRest(script, n, {}) {
      forall c: nat | c < n ensures Once(script, c) {
        assert Listed(script, c);
        var i: nat :| i < |script| && Lists(script[i], c);
        assert Only(script, c, i);
      }
    }
    if Divides(script, n) {
      forall c | 0 <= c < n && c !in {} ensures Listed(script, c) {
        var k: nat := c;
        assert Once(script, k);
        var i: nat :| Only(script, k, i);
      }
      forall i, j, c | 0 <= i < j < |script| && Lists(script[i], c) ensures !Lists(script[j], c) {
        ListsBelow(script[i], n, c);
        var k: nat := c;
        assert Once(script, k);
        var m: nat :| Only(script, k, m);
      }
    }
  }

  lemma ListsBelow(s: ScanInfo, n: nat, c: int)
    requires Whole(s, n) && Lists(s, c)
    ensures 0 <= c < n
  {
  }

  /** A sequential script is accepted exactly when its scans, of one to four components each in
      increasing order, divide up the components of the image. */
  lemma SequentialAccepted(script: seq<ScanInfo>, n: nat)
    requires script != [] && script[0].Ss == 0 && script[0].Se == 63
    ensures ValidScript(script, n) <==> Divides(script, n)
  {
    RestDivides(script, n, {});
    DividesIs(script, n);
  }

  // ---- Progressive scripts ----

  /** Scan s sends some bits of coefficient k of component c. */
  predicate Sends(s: ScanInfo, c: int, k: int) { Lists(s, c) && s.Ss <= k <= s.Se }

  /** The bit position down to which the first i scans have sent coefficient k of component c, or
      -1 if none has sent it. */
  function Latest(script: seq<ScanInfo>, i: nat, c: int, k: int): int
    requires i <= |script|
  {
    if i == 0 then -1 else if Sends(script[i - 1], c, k) then script[i - 1].Al else Latest(script, i - 1, c, k)
  }

  /** DC coefficients of up to four components, or AC coefficients of one; at most ten bits are
      held back. */
  predicate Ranges(s: ScanInfo)
  {
    && 0 <= s.Ss <= s.Se <= 63 && 0 <= s.Ah <= 10 && 0 <= s.Al <= 10
    && (s.Ss == 0 ==> s.Se == 0) && (s.Ss > 0 ==> s.compsInScan == 1)
  }

  /** Scan i sends the next bit of each of its coefficients, or is the first to send any of them;
      DC coefficients come before AC coefficients. */
  ghost predicate FollowsOn(script: seq<ScanInfo>, i: nat, n: nat)
    requires i < |script|
  {
    var s := script[i];
    && GoodComps(s, n) && Ranges(s)
    && (forall c, k {:trigger Sends(s, c, k)} :: Sends(s, c, k) ==> NextBit(s, Latest(script, i, c, k)))
    && (forall c :: Lists(s, c) && s.Ss > 0 ==> Latest(script, i, c, 0) >= 0)
  }

  predicate NextBit(s: ScanInfo, latest: int) { if latest < 0 then s.Ah == 0 else s.Ah == latest && s.Al == latest - 1 }

  /** Every scan does, and in the end some DC bits of every component have been sent. */
  ghost predicate Progresses(script: seq<ScanInfo>, n: nat)
  {
    && (forall i :: 0 <= i < |script| ==> FollowsOn(script, i, n))
    && forall c :: 0 <= c < n ==> Latest(script, |script|, c, 0) >= 0
  }

  /** The table of validate_script after i scans. */
  ghost predicate TableIs(script: seq<ScanInfo>, i: nat, n: nat, last: BitPos)
    requires i <= |script|
  {
    Rows(last, n) && forall c, k :: 0 <= c < n && 0 <= k < 64 ==> last[c][k] == Latest(script, i, c, k)
  }

  lemma AcceptsIs(script: seq<ScanInfo>, i: nat, n: nat, last: BitPos)
    requires i < |script| && TableIs(script, i, n, last)
    ensures Accepts(script[i], last) <==> FollowsOn(script, i, n)
  {
    var s := script[i];
    GoodCompsIs(s, n);
    hide Latest;
    hide GoodComps;
    if Accepts(s, last) {
      forall c, k {:trigger Sends(s, c, k)} | Sends(s, c, k) ensures NextBit(s, Latest(script, i, c, k)) {
        var ci :| 0 <= ci < 4 && ci < s.compsInScan && s.componentIndex[ci] == c;
        assert RowOk(s, last[c]) && CoefOk(s, last[c][k]);
      }
      forall c | Lists(s, c) && s.Ss > 0 ensures Latest(script, i, c, 0) >= 0 {
        var ci :| 0 <= ci < 4 && ci < s.compsInScan && s.componentIndex[ci] == c;
        assert RowOk(s, last[c]);
      }
    }
    if FollowsOn(script, i, n) {
      forall ci | 0 <= ci < s.compsInScan ensures RowOk(s, last[s.componentIndex[ci]]) {
        var c := s.componentIndex[ci];
        assert Lists(s, c);
        forall k | 0 <= k < DCTSIZE2 && s.Ss <= k <= s.Se ensures CoefOk(s, last[c][k]) { assert Sends(s, c, k); }
      }
    }
  }

  lemma AfterIs(script: seq<ScanInfo>, i: nat, n: nat, last: BitPos)
    requires i < |script| && TableIs(script, i, n, last) && GoodComps(script[i], n)
    ensures TableIs(script, i + 1, n, After(script[i], last))
  {
    var s := script[i];
    forall c ensures Lists(s, c) <==> InScan(s, c) { ListsIs(s, c); }
    hide Lists;
    hide InScan;
    hide GoodComps;
  }

  lemma {:induction false} AllFollow(script: seq<ScanInfo>, i: nat, n: nat, last: BitPos)
    requires i <= |script| && TableIs(script, i, n, last)
    ensures AcceptsAll(script[i..], last) <==> forall j :: i <= j < |script| ==> FollowsOn(script, j, n)
    ensures AcceptsAll(script[i..], last) ==> TableIs(script, |script|, n, Final(script[i..], last))
    decreases |script| - i
  {
    if i < |script| {
      AcceptsIs(script, i, n, last);
      assert script[i..][0] == script[i] && script[i..][1..] == script[i + 1..];
      if FollowsOn(script, i, n) {
        AfterIs(script, i, n, last);
        AllFollow(script, i + 1, n, After(script[i], last));
      }
      hide TableIs;
      hide Accepts;
    }
  }

  /** A progressive script is accepted exactly when every scan of it follows on from those before. */
  lemma ProgressiveAccepted(script: seq<ScanInfo>, n: nat)
    requires script != [] && !(script[0].Ss == 0 && script[0].Se == 63)
    ensures ValidScript(script, n) <==> Progresses(script, n)
  {
    hide FollowsOn;
    hide Latest;
    assert TableIs(script, 0, n, Unseen(n)) by { NothingSent(script, n); }
    AllFollow(script, 0, n, Unseen(n));
    assert script[0..] == script;
    hide AcceptsAll;
    hide Final;
    if AcceptsAll(script, Unseen(n)) {
      assert forall c :: 0 <= c < n ==> Final(script, Unseen(n))[c][0] == Latest(script, |script|, c, 0);
    }
  }

  lemma NothingSent(script: seq<ScanInfo>, n: nat)
    ensures TableIs(script, 0, n, Unseen(n))
  {
  }

  // ---- What the decoder makes of other scripts ----

  /** No scan sends a coefficient again whose last bit has been sent. */
  ghost predicate NoneAgain(script: seq<ScanInfo>, last: BitPos)
    requires Rows(last, |last|)
    decreases script
  {
    script != [] && CompsOk(script[0], |last|) ==>
      && (forall ci, k :: 0 <= ci < script[0].compsInScan && 0 <= k < 64 && script[0].Ss <= k <= script[0].Se ==>
            last[script[0].componentIndex[ci]][k] != 0)
      && NoneAgain(script[1..], After(script[0], last))
  }

  ghost predicate AllRanges(script: seq<ScanInfo>) { forall i :: 0 <= i < |script| ==> Ranges(script[i]) }

  lemma OneQuiet(s: ScanInfo, last: BitPos)
    requires Rows(last, |last|) && CompsOk(s, |last|) && Ranges(s)
    requires forall c, k :: 0 <= c < |last| && 0 <= k < 64 ==> last[c][k] >= -1
    ensures Accepts(s, last) <==>
      && DecoderParamsOk(s) && (forall ci :: 0 <= ci < s.compsInScan ==> Continues(s, last[s.componentIndex[ci]]))
      && forall ci, k :: 0 <= ci < s.compsInScan && 0 <= k < 64 && s.Ss <= k <= s.Se ==> last[s.componentIndex[ci]][k] != 0
  {
    if Accepts(s, last) {
      AcceptedContinues(s, last);
      forall ci, k | 0 <= ci < s.compsInScan && 0 <= k < 64 && s.Ss <= k <= s.Se ensures last[s.componentIndex[ci]][k] != 0 {
        assert RowOk(s, last[s.componentIndex[ci]]) && CoefOk(s, last[s.componentIndex[ci]][k]);
      }
    }
  }

  /** Of scripts within the ranges, the decoder takes without complaint those that are accepted and
      those that send finished coefficients again, and no others. */
  lemma {:induction false} DecoderTakes(script: seq<ScanInfo>, last: BitPos)
    requires Rows(last, |last|) && AllRanges(script)
    requires forall c, k :: 0 <= c < |last| && 0 <= k < 64 ==> last[c][k] >= -1
    ensures AcceptsAll(script, last) <==> DecoderQuiet(script, last) && NoneAgain(script, last)
    decreases script
  {
    if script != [] {
      var s := script[0];
      if CompsOk(s, |last|) {
        OneQuiet(s, last);
        hide Continues;
        hide RowOk;
        DecoderTakes(script[1..], After(s, last));
        hide After;
        hide CompsOk;
      }
    }
  }

  /** One that the decoder does not notice: a component's DC coefficients, sent twice. */
  lemma SentAgain()
    ensures var s := ScanInfo(1, [0, 0, 0, 0], 0, 0, 0, 0);
            && AllRanges([s, s]) && DecoderQuiet([s, s], Unseen(1)) && !AcceptsAll([s, s], Unseen(1))
  {
    var s: ScanInfo := ScanInfo(1, [0, 0, 0, 0], 0, 0, 0, 0);
    var next := After(s, Unseen(1));
    assert InScan(s, 0) by { assert s.componentIndex[0] == 0; }
    assert next[0][0] == 0;
    assert [s, s][1..] == [s] && [s][1..] == [];
    assert Continues(s, Unseen(1)[0]) && Continues(s, next[0]);
    assert !RowOk(s, next[0]) by { assert !CoefOk(s, next[0][0]); }
    assert !Accepts(s, next) by { assert s.componentIndex[0] == 0; }
  }

  /** What update_coef_bits refuses, and how often it warns: once for AC data before any DC data of
      the component, and once for each coefficient whose last known bit is not the one that the scan
      says it follows. */
  lemma DecoderRules(s: ScanInfo, row: seq<int>)
    requires |row| == 64 && 0 <= s.Ss
    ensures DecoderParamsOk(s) <==>
            && ((s.Ss == 0 && s.Se == 0) || (1 <= s.Ss <= s.Se <= 63 && s.compsInScan == 1))
            && (s.Ah == 0 || s.Al == s.Ah - 1) && s.Al <= 13
    ensures s.Se <= 63 ==>
            RowWarnings(s, row) == (if s.Ss > 0 && row[0] < 0 then 1 else 0)
                                   + |set k | s.Ss <= k <= s.Se && s.Ah != (if row[k] < 0 then 0 else row[k])|
  {
    if s.Se <= 63 {
      assert Breaks(s, row, s.Se + 1) == set k | s.Ss <= k <= s.Se && s.Ah != (if row[k] < 0 then 0 else row[k]);
    }
  }
}
