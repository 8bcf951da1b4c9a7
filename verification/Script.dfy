/** Scan scripts: validate_script of jcmaster.c, and the decoder's own progression
    bookkeeping in start_pass_phuff_decoder. */
module Script {
  const MAX_COMPS_IN_SCAN: int := 4
  const MAX_AH_AL: int := 10
  const DCTSIZE2: int := 64

  datatype RawScanInfo = ScanInfo(compsInScan: int, componentIndex: seq<int>, Ss: int, Se: int, Ah: int, Al: int)

  /** jpeg_scan_info; component_index is an array of MAX_COMPS_IN_SCAN entries. */
  type ScanInfo = s: RawScanInfo | |s.componentIndex| == MAX_COMPS_IN_SCAN witness ScanInfo(0, [0, 0, 0, 0], 0, 0, 0, 0)

  /** last_bitpos: for each component and coefficient the Al of its latest scan, -1 before. */
  type BitPos = seq<seq<int>>

  ghost predicate Rows(last: BitPos, n: nat)
  {
    |last| == n && forall c :: 0 <= c < n ==> |last[c]| == DCTSIZE2
  }

  function Unseen(n: nat): BitPos { seq(n, c => seq(DCTSIZE2, k => -1)) }

  predicate CompsOk(s: ScanInfo, n: int)
  {
    && 0 < s.compsInScan <= MAX_COMPS_IN_SCAN
    && (forall ci :: 0 <= ci < s.compsInScan ==> 0 <= s.componentIndex[ci] < n)
    && (forall ci :: 1 <= ci < s.compsInScan ==> s.componentIndex[ci - 1] < s.componentIndex[ci])
  }

  predicate ProgOk(s: ScanInfo)
  {
    && 0 <= s.Ss <= s.Se < DCTSIZE2 && 0 <= s.Ah <= MAX_AH_AL && 0 <= s.Al <= MAX_AH_AL
    && (if s.Ss == 0 then s.Se == 0 else s.compsInScan == 1)
  }

  /** The scan continues the coefficient whose latest Al was old. */
  predicate CoefOk(s: ScanInfo, old_: int)
  {
    if old_ < 0 then s.Ah == 0 else s.Ah == old_ && s.Al == s.Ah - 1
  }

  predicate InScan(s: ScanInfo, c: int)
    requires s.compsInScan <= MAX_COMPS_IN_SCAN
  {
    exists ci :: 0 <= ci < s.compsInScan && s.componentIndex[ci] == c
  }

  /** Component c may be sent with these parameters now. */
  ghost predicate RowOk(s: ScanInfo, row: seq<int>)
  {
    && |row| == DCTSIZE2 && (s.Ss != 0 ==> row[0] >= 0)
    && forall k :: 0 <= k < DCTSIZE2 && s.Ss <= k <= s.Se ==> CoefOk(s, row[k])
  }

  ghost predicate Accepts(s: ScanInfo, last: BitPos)
  {
    && CompsOk(s, |last|) && ProgOk(s)
    && forall ci :: 0 <= ci < s.compsInScan ==> RowOk(s, last[s.componentIndex[ci]])
  }

  ghost function RowAfter(s: ScanInfo, row: seq<int>): (r: seq<int>)
    requires |row| == DCTSIZE2
    ensures |r| == DCTSIZE2
  {
    seq(DCTSIZE2, k requires 0 <= k < DCTSIZE2 => if s.Ss <= k <= s.Se then s.Al else row[k])
  }

  ghost function After(s: ScanInfo, last: BitPos): (r: BitPos)
    requires Rows(last, |last|) && s.compsInScan <= MAX_COMPS_IN_SCAN
    ensures Rows(r, |last|)
  {
    seq(|last|, c requires 0 <= c < |last| => if InScan(s, c) then RowAfter(s, last[c]) else last[c])
  }

  /** Every scan of the script is accepted in turn. */
  ghost predicate AcceptsAll(script: seq<ScanInfo>, last: BitPos)
    requires Rows(last, |last|)
    decreases script
  {
    script != [] ==> Accepts(script[0], last) && AcceptsAll(script[1..], After(script[0], last))
  }

  ghost function Final(script: seq<ScanInfo>, last: BitPos): (r: BitPos)
    requires Rows(last, |last|) && AcceptsAll(script, last)
    ensures Rows(r, |last|)
    decreases script
  {
    if script == [] then last else Final(script[1..], After(script[0], last))
  }

  /** A script of progressive scans that sends some DC data for every component. */
  ghost predicate ValidProgressive(script: seq<ScanInfo>, n: nat)
  {
    && script != [] && AcceptsAll(script, Unseen(n))
    && forall c :: 0 <= c < n ==> Final(script, Unseen(n))[c][0] >= 0
  }

  // ---- Sequential scripts ----

  predicate SeqOk(s: ScanInfo) { s.Ss == 0 && s.Se == DCTSIZE2 - 1 && s.Ah == 0 && s.Al == 0 }

  ghost function SentBy(s: ScanInfo): set<int>
    requires s.compsInScan <= MAX_COMPS_IN_SCAN
  {
    set ci | 0 <= ci < s.compsInScan :: s.componentIndex[ci]
  }

  /** No component is sent twice, starting with those in `sent`; true if all are sent. */
  ghost predicate SendsRest(script: seq<ScanInfo>, n: nat, sent: set<int>)
    decreases script
  {
    if script == [] then forall c :: 0 <= c < n ==> c in sent
    else CompsOk(script[0], n) && SeqOk(script[0]) && SentBy(script[0]) !! sent
         && SendsRest(script[1..], n, sent + SentBy(script[0]))
  }

  predicate IsProgressive(script: seq<ScanInfo>)
    requires script != []
  {
    script[0].Ss != 0 || script[0].Se != DCTSIZE2 - 1
  }

  /** What validate_script accepts. */
  ghost predicate ValidScript(script: seq<ScanInfo>, n: nat)
  {
    && script != []
    && if IsProgressive(script) then ValidProgressive(script, n) else SendsRest(script, n, {})
  }

  // ---- The array form ----

  ghost function Row(a: array2<int>, c: int): (r: seq<int>)
    requires 0 <= c < a.Length0 && a.Length1 == DCTSIZE2
    reads a
    ensures |r| == DCTSIZE2
  {
    seq(DCTSIZE2, k requires 0 <= k < DCTSIZE2 reads a => a[c, k])
  }

  ghost function Table(a: array2<int>): (r: BitPos)
    requires a.Length1 == DCTSIZE2
    reads a
    ensures Rows(r, a.Length0)
  {
    seq(a.Length0, c requires 0 <= c < a.Length0 reads a => Row(a, c))
  }

  /** The coefficient loop of validate_script for component c. */
  method CheckCoefs(s: ScanInfo, a: array2<int>, c: int) returns (ok: bool)
    requires a.Length1 == DCTSIZE2 && 0 <= c < a.Length0 && 0 <= s.Ss <= s.Se < DCTSIZE2
    modifies a
    ensures ok <==> forall k :: s.Ss <= k <= s.Se ==> CoefOk(s, old(Row(a, c))[k])
    ensures forall c' :: 0 <= c' < a.Length0 && c' != c ==> Row(a, c') == old(Row(a, c'))
    ensures ok ==> Row(a, c) == RowAfter(s, old(Row(a, c)))
  {
    var coefi := s.Ss;
    while coefi <= s.Se
      invariant s.Ss <= coefi <= s.Se + 1
      invariant forall k :: s.Ss <= k < coefi ==> CoefOk(s, old(Row(a, c))[k])
      invariant forall k :: 0 <= k < DCTSIZE2 ==> a[c, k] == if s.Ss <= k < coefi then s.Al else old(a[c, k])
      invariant forall c', k :: 0 <= c' < a.Length0 && 0 <= k < DCTSIZE2 && c' != c ==> a[c', k] == old(a[c', k])
    {
      assert a[c, coefi] == old(Row(a, c))[coefi];
      if a[c, coefi] < 0 {
        if s.Ah != 0 { return false; }
      } else {
        if s.Ah != a[c, coefi] || s.Al != s.Ah - 1 { return false; }
      }
      a[c, coefi] := s.Al;
      coefi := coefi + 1;
    }
    return true;
  }

  /** The component indexes of one scan. */
  method CheckComps(s: ScanInfo, n: int) returns (ok: bool)
    ensures ok <==> CompsOk(s, n)
  {
    if s.compsInScan <= 0 || s.compsInScan > MAX_COMPS_IN_SCAN { return false; }
    var ci := 0;
    while ci < s.compsInScan
      invariant 0 <= ci <= s.compsInScan
      invariant forall i :: 0 <= i < ci ==> 0 <= s.componentIndex[i] < n
      invariant forall i :: 1 <= i < ci ==> s.componentIndex[i - 1] < s.componentIndex[i]
    {
      var thisi := s.componentIndex[ci];
      if thisi < 0 || thisi >= n { return false; }
      if ci > 0 && thisi <= s.componentIndex[ci - 1] { return false; }
      ci := ci + 1;
    }
    return true;
  }

  /** Increasing component indexes are distinct. */
  lemma Increasing(s: ScanInfo, n: int, i: int, j: int)
    requires CompsOk(s, n) && 0 <= i < j < s.compsInScan
    ensures s.componentIndex[i] < s.componentIndex[j]
    decreases j
  {
    if i < j - 1 { Increasing(s, n, i, j - 1); }
  }

  /** One scan of a progressive script, once its component indexes are known to be good. */
  method CheckProgressive(s: ScanInfo, a: array2<int>) returns (ok: bool)
    requires a.Length1 == DCTSIZE2 && CompsOk(s, a.Length0)
    modifies a
    ensures ok <==> Accepts(s, old(Table(a)))
    ensures ok ==> Table(a) == After(s, old(Table(a)))
  {
    if s.Ss < 0 || s.Ss >= DCTSIZE2 || s.Se < s.Ss || s.Se >= DCTSIZE2
       || s.Ah < 0 || s.Ah > MAX_AH_AL || s.Al < 0 || s.Al > MAX_AH_AL { return false; }
    if s.Ss == 0 {
      if s.Se != 0 { return false; }
    } else {
      if s.compsInScan != 1 { return false; }
    }
    ok := EnterComps(s, a);
  }

  /** The loop over the components of the scan. */
  method EnterComps(s: ScanInfo, a: array2<int>) returns (ok: bool)
    requires a.Length1 == DCTSIZE2 && CompsOk(s, a.Length0) && ProgOk(s)
    modifies a
    ensures ok <==> Accepts(s, old(Table(a)))
    ensures ok ==> Table(a) == After(s, old(Table(a)))
  {
    hide RowOk;
    ghost var before := Table(a);
    var ci := 0;
    while ci < s.compsInScan
      invariant 0 <= ci <= s.compsInScan
      invariant forall i :: 0 <= i < ci ==> RowOk(s, before[s.componentIndex[i]])
      invariant PartlyAfter(s, before, Table(a), ci)
    {
      var c := s.componentIndex[ci];
      FreshRow(s, before, Table(a), ci);
      ghost var mid := Table(a);
      var fine := EnterComp(s, a, c);
      if !fine { return false; }
      RowDone(s, before, mid, Table(a), ci);
      ci := ci + 1;
    }
    AllDone(s, before, Table(a));
    return true;
  }

  /** One component: AC scans need some DC data first; then the coefficients. */
  method EnterComp(s: ScanInfo, a: array2<int>, c: int) returns (ok: bool)
    requires 0 <= c < a.Length0 && a.Length1 == DCTSIZE2 && ProgOk(s)
    modifies a
    ensures ok <==> RowOk(s, old(Table(a))[c])
    ensures ok ==> Table(a)[c] == RowAfter(s, old(Table(a))[c])
    ensures ok ==> forall i :: 0 <= i < a.Length0 && i != c ==> Table(a)[i] == old(Table(a))[i]
  {
    assert Table(a)[c] == Row(a, c);
    if s.Ss != 0 && a[c, 0] < 0 {
      assert Row(a, c)[0] == a[c, 0];
      return false;
    }
    ok := CheckCoefs(s, a, c);
  }

  /** The first ci components of the scan have been entered into the table. */
  ghost predicate PartlyAfter(s: ScanInfo, before: BitPos, now: BitPos, ci: int)
    requires Rows(before, |before|) && s.compsInScan <= MAX_COMPS_IN_SCAN
  {
    && Rows(now, |before|) && 0 <= ci <= s.compsInScan
    && forall c :: 0 <= c < |before| ==>
         now[c] == if exists i :: 0 <= i < ci && s.componentIndex[i] == c then RowAfter(s, before[c]) else before[c]
  }

  lemma FreshRow(s: ScanInfo, before: BitPos, now: BitPos, ci: int)
    requires Rows(before, |before|) && CompsOk(s, |before|) && PartlyAfter(s, before, now, ci) && ci < s.compsInScan
    ensures now[s.componentIndex[ci]] == before[s.componentIndex[ci]]
  {
    forall i | 0 <= i < ci ensures s.componentIndex[i] != s.componentIndex[ci] { Increasing(s, |before|, i, ci); }
  }

  lemma RowDone(s: ScanInfo, before: BitPos, mid: BitPos, now: BitPos, ci: int)
    requires Rows(before, |before|) && CompsOk(s, |before|) && PartlyAfter(s, before, mid, ci) && ci < s.compsInScan
    requires Rows(now, |before|) && now[s.componentIndex[ci]] == RowAfter(s, before[s.componentIndex[ci]])
    requires forall c :: 0 <= c < |mid| && c != s.componentIndex[ci] ==> now[c] == mid[c]
    ensures PartlyAfter(s, before, now, ci + 1)
  {
    hide RowAfter;
    forall c | 0 <= c < |before|
      ensures now[c] == if exists i :: 0 <= i < ci + 1 && s.componentIndex[i] == c then RowAfter(s, before[c]) else before[c]
    {
      if c == s.componentIndex[ci] {
        assert exists i :: 0 <= i < ci + 1 && s.componentIndex[i] == c;
      } else {
        assert (exists i :: 0 <= i < ci + 1 && s.componentIndex[i] == c) <==> (exists i :: 0 <= i < ci && s.componentIndex[i] == c);
      }
    }
  }

  lemma AllDone(s: ScanInfo, before: BitPos, now: BitPos)
    requires Rows(before, |before|) && CompsOk(s, |before|) && PartlyAfter(s, before, now, s.compsInScan)
    ensures now == After(s, before)
  {
    hide RowAfter;
  }

  /** One scan of a sequential script. */
  method CheckSequential(s: ScanInfo, n: nat, sent: array<bool>) returns (ok: bool)
    requires sent.Length == n && CompsOk(s, n)
    modifies sent
    ensures ok <==> SeqOk(s) && SentBy(s) !! SentSet(old(sent[..]))
    ensures ok ==> SentSet(sent[..]) == SentSet(old(sent[..])) + SentBy(s)
  {
    if s.Ss != 0 || s.Se != DCTSIZE2 - 1 || s.Ah != 0 || s.Al != 0 { return false; }
    ghost var before := sent[..];
    var ci := 0;
    while ci < s.compsInScan
      invariant 0 <= ci <= s.compsInScan
      invariant forall i :: 0 <= i < ci ==> s.componentIndex[i] !in SentSet(before)
      invariant forall c :: 0 <= c < n ==> (sent[c] <==> before[c] || exists i :: 0 <= i < ci && s.componentIndex[i] == c)
    {
      var thisi := s.componentIndex[ci];
      forall i | 0 <= i < ci ensures s.componentIndex[i] != thisi { Increasing(s, n, i, ci); }
      if sent[thisi] {
        assert before[thisi] && thisi in SentBy(s);
        return false;
      }
      sent[thisi] := true;
      ci := ci + 1;
    }
    return true;
  }

  ghost function SentSet(sent: seq<bool>): set<int>
  {
    set c | 0 <= c < |sent| && sent[c]
  }

  /** validate_script: JERR_* become ok == false; progressive is cinfo->progressive_mode. */
  method ValidateScript(script: seq<ScanInfo>, n: nat) returns (ok: bool, progressive: bool)
    ensures ok <==> ValidScript(script, n)
    ensures ok ==> progressive == IsProgressive(script)
  {
    if |script| <= 0 { return false, false; }
    if script[0].Ss != 0 || script[0].Se != DCTSIZE2 - 1 {
      ok := ValidateProgressive(script, n);
      return ok, true;
    } else {
      ok := ValidateSequential(script, n);
      return ok, false;
    }
  }

  method ValidateProgressive(script: seq<ScanInfo>, n: nat) returns (ok: bool)
    requires script != []
    ensures ok <==> ValidProgressive(script, n)
  {
    var last := new int[n, DCTSIZE2]((c, k) => -1);
    assert forall c :: 0 <= c < n ==> Row(last, c) == Unseen(n)[c];
    assert Table(last) == Unseen(n);
    var scanno := 0;
    while scanno < |script|
      invariant 0 <= scanno <= |script|
      invariant AcceptsAll(script, Unseen(n)) <==> AcceptsAll(script[scanno..], Table(last))
      invariant AcceptsAll(script, Unseen(n)) ==> Final(script, Unseen(n)) == Final(script[scanno..], Table(last))
    {
      var s := script[scanno];
      assert script[scanno..][0] == s && script[scanno..][1..] == script[scanno + 1..];
      var comps := CheckComps(s, n);
      if !comps { return false; }
      var fine := CheckProgressive(s, last);
      if !fine { return false; }
      scanno := scanno + 1;
    }
    var ci := 0;
    while ci < n
      invariant 0 <= ci <= n
      invariant forall c :: 0 <= c < ci ==> Table(last)[c][0] >= 0
    {
      assert Table(last)[ci][0] == last[ci, 0];
      if last[ci, 0] < 0 { return false; }
      ci := ci + 1;
    }
    return true;
  }

  method ValidateSequential(script: seq<ScanInfo>, n: nat) returns (ok: bool)
    requires script != []
    ensures ok <==> SendsRest(script, n, {})
  {
    var sent := new bool[n](c => false);
    assert SentSet(sent[..]) == {};
    var scanno := 0;
    while scanno < |script|
      invariant 0 <= scanno <= |script|
      invariant SendsRest(script, n, {}) <==> SendsRest(script[scanno..], n, SentSet(sent[..]))
    {
      var s := script[scanno];
      assert script[scanno..][0] == s && script[scanno..][1..] == script[scanno + 1..];
      var comps := CheckComps(s, n);
      if !comps { return false; }
      var fine := CheckSequential(s, n, sent);
      if !fine { return false; }
      scanno := scanno + 1;
    }
    var ci := 0;
    while ci < n
      invariant 0 <= ci <= n
      invariant forall c :: 0 <= c < ci ==> c in SentSet(sent[..])
    {
      if !sent[ci] {
        assert ci !in SentSet(sent[..]);
        return false;
      }
      ci := ci + 1;
    }
    return true;
  }

  // ---- The decoder's view ----

  /** Parameters that start_pass_phuff_decoder does not refuse. */
  predicate DecoderParamsOk(s: ScanInfo)
  {
    && (if s.Ss == 0 then s.Se == 0 else s.Ss <= s.Se < DCTSIZE2 && s.compsInScan == 1)
    && (s.Ah != 0 ==> s.Al == s.Ah - 1)
    && s.Al <= 13
  }

  /** No JWRN_BOGUS_PROGRESSION for a component with these coef_bits. */
  ghost predicate Continues(s: ScanInfo, row: seq<int>)
  {
    && |row| == DCTSIZE2 && (s.Ss != 0 ==> row[0] >= 0)
    && forall k :: 0 <= k < DCTSIZE2 && s.Ss <= k <= s.Se ==> s.Ah == if row[k] < 0 then 0 else row[k]
  }

  /** The scan does not continue the coefficient whose coef_bits entry is old_. */
  predicate Broken(s: ScanInfo, old_: int) { s.Ah != (if old_ < 0 then 0 else old_) }

  /** The coefficients before position k that the scan should not be sending in this way now. */
  function Breaks(s: ScanInfo, row: seq<int>, k: int): set<int>
    requires |row| == DCTSIZE2 && 0 <= s.Ss && k <= DCTSIZE2
  {
    set j | s.Ss <= j < k && Broken(s, row[j])
  }

  /** The number of JWRN_BOGUS_PROGRESSION warnings for a component with these coef_bits: one for
      each such coefficient, and one for AC before any DC. */
  function RowWarnings(s: ScanInfo, row: seq<int>): nat
    requires |row| == DCTSIZE2 && 0 <= s.Ss && s.Se < DCTSIZE2
  {
    (if s.Ss != 0 && row[0] < 0 then 1 else 0) + |Breaks(s, row, s.Se + 1)|
  }

  /** Those of the first n components of the scan. */
  function ScanWarnings(s: ScanInfo, last: BitPos, n: nat): nat
    requires CompsOk(s, |last|) && Rows(last, |last|) && n <= s.compsInScan && 0 <= s.Ss && s.Se < DCTSIZE2
  {
    if n == 0 then 0 else ScanWarnings(s, last, n - 1) + RowWarnings(s, last[s.componentIndex[n - 1]])
  }

  lemma QuietRow(s: ScanInfo, row: seq<int>)
    requires |row| == DCTSIZE2 && 0 <= s.Ss && s.Se < DCTSIZE2
    ensures RowWarnings(s, row) == 0 <==> Continues(s, row)
  {
    if |Breaks(s, row, s.Se + 1)| == 0 {
      forall k | s.Ss <= k <= s.Se ensures s.Ah == if row[k] < 0 then 0 else row[k] {
        assert k !in Breaks(s, row, s.Se + 1);
      }
    } else {
      var k :| k in Breaks(s, row, s.Se + 1);
    }
  }

  /** No warnings exactly when every component's coefficients are continued properly. */
  lemma {:induction false} NoWarnings(s: ScanInfo, last: BitPos, n: nat)
    requires CompsOk(s, |last|) && Rows(last, |last|) && n <= s.compsInScan && 0 <= s.Ss && s.Se < DCTSIZE2
    ensures ScanWarnings(s, last, n) == 0 <==> forall ci :: 0 <= ci < n ==> Continues(s, last[s.componentIndex[ci]])
  {
    hide RowWarnings;
    hide Continues;
    if n > 0 {
      NoWarnings(s, last, n - 1);
      QuietRow(s, last[s.componentIndex[n - 1]]);
    }
  }

  lemma OneMore(s: ScanInfo, row: seq<int>, k: int)
    requires |row| == DCTSIZE2 && 0 <= s.Ss <= k < DCTSIZE2
    ensures |Breaks(s, row, k + 1)| == |Breaks(s, row, k)| + if Broken(s, row[k]) then 1 else 0
  {
    hide Broken;
    if Broken(s, row[k]) {
      assert Breaks(s, row, k + 1) == Breaks(s, row, k) + {k};
    } else {
      assert Breaks(s, row, k + 1) == Breaks(s, row, k);
    }
  }

  lemma NoneYet(s: ScanInfo, row: seq<int>)
    requires |row| == DCTSIZE2 && 0 <= s.Ss <= DCTSIZE2
    ensures Breaks(s, row, s.Ss) == {}
  {
  }

  /** The decoder takes every scan without error or warning, starting from these coef_bits. */
  ghost predicate DecoderQuiet(script: seq<ScanInfo>, bits: BitPos)
    requires Rows(bits, |bits|)
    decreases script
  {
    script != [] ==>
      && CompsOk(script[0], |bits|) && DecoderParamsOk(script[0])
      && (forall ci :: 0 <= ci < script[0].compsInScan ==> Continues(script[0], bits[script[0].componentIndex[ci]]))
      && DecoderQuiet(script[1..], After(script[0], bits))
  }

  lemma AcceptedContinues(s: ScanInfo, last: BitPos)
    requires Accepts(s, last)
    ensures DecoderParamsOk(s)
    ensures forall ci :: 0 <= ci < s.compsInScan ==> Continues(s, last[s.componentIndex[ci]])
  {
    forall ci | 0 <= ci < s.compsInScan ensures Continues(s, last[s.componentIndex[ci]]) {
      assert RowOk(s, last[s.componentIndex[ci]]);
    }
    assert RowOk(s, last[s.componentIndex[0]]) && CoefOk(s, last[s.componentIndex[0]][s.Ss]);
  }

  /** What the encoder's validation accepts never upsets the decoder. */
  lemma {:induction false} ScriptDecodesQuietly(script: seq<ScanInfo>, last: BitPos)
    requires Rows(last, |last|) && AcceptsAll(script, last)
    ensures DecoderQuiet(script, last)
    decreases script
  {
    if script != [] {
      AcceptedContinues(script[0], last);
      ScriptDecodesQuietly(script[1..], After(script[0], last));
    }
  }

  /** The progression part of start_pass_phuff_decoder. */
  method UpdateCoefBits(s: ScanInfo, coefBits: array2<int>) returns (bad: bool, warnings: nat)
    requires coefBits.Length1 == DCTSIZE2 && CompsOk(s, coefBits.Length0) && s.Ss >= 0
    modifies coefBits
    ensures bad <==> !DecoderParamsOk(s)
    ensures !bad ==> Table(coefBits) == After(s, old(Table(coefBits)))
    ensures !bad ==> s.Se < DCTSIZE2 && warnings == ScanWarnings(s, old(Table(coefBits)), s.compsInScan)
  {
    warnings := 0;
    bad := false;
    if s.Ss == 0 {
      if s.Se != 0 { bad := true; }
    } else {
      if s.Ss > s.Se || s.Se >= DCTSIZE2 { bad := true; }
      if s.compsInScan != 1 { bad := true; }
    }
    if s.Ah != 0 {
      if s.Al != s.Ah - 1 { bad := true; }
    }
    if s.Al > 13 { bad := true; }
    if bad { return; }
    ghost var before := Table(coefBits);
    var ci := 0;
    while ci < s.compsInScan
      invariant 0 <= ci <= s.compsInScan
      invariant warnings == ScanWarnings(s, before, ci)
      invariant PartlyAfter(s, before, Table(coefBits), ci)
    {
      ghost var mid := Table(coefBits);
      FreshRow(s, before, mid, ci);
      var w := UpdateComponent(s, coefBits, s.componentIndex[ci]);
      assert mid[s.componentIndex[ci]] == before[s.componentIndex[ci]];
      RowDone(s, before, mid, Table(coefBits), ci);
      warnings := warnings + w;
      ci := ci + 1;
    }
    AllDone(s, before, Table(coefBits));
  }

  /** The coefficient loop of start_pass_phuff_decoder for one component. */
  method UpdateComponent(s: ScanInfo, coefBits: array2<int>, c: int) returns (warnings: nat)
    requires coefBits.Length1 == DCTSIZE2 && 0 <= c < coefBits.Length0 && 0 <= s.Ss <= s.Se < DCTSIZE2
    modifies coefBits
    ensures warnings == RowWarnings(s, old(Row(coefBits, c)))
    ensures Row(coefBits, c) == RowAfter(s, old(Row(coefBits, c)))
    ensures forall c' :: 0 <= c' < coefBits.Length0 && c' != c ==> Row(coefBits, c') == old(Row(coefBits, c'))
  {
    ghost var row := Row(coefBits, c);
    warnings := 0;
    if s.Ss != 0 && coefBits[c, 0] < 0 { warnings := 1; }
    ghost var first := warnings;
    NoneYet(s, row);
    var coefi := s.Ss;
    while coefi <= s.Se
      invariant s.Ss <= coefi <= s.Se + 1
      invariant warnings == first + |Breaks(s, row, coefi)|
      invariant forall k :: 0 <= k < DCTSIZE2 ==> coefBits[c, k] == if s.Ss <= k < coefi then s.Al else row[k]
      invariant forall c', k :: 0 <= c' < coefBits.Length0 && 0 <= k < DCTSIZE2 && c' != c ==> coefBits[c', k] == old(coefBits[c', k])
    {
      OneMore(s, row, coefi);
      var expected := if coefBits[c, coefi] < 0 then 0 else coefBits[c, coefi];
      if s.Ah != expected { warnings := warnings + 1; }
      coefBits[c, coefi] := s.Al;
      coefi := coefi + 1;
    }
  }
}
