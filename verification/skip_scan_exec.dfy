/**
 * The skip-scan executor node: a state machine that drives an ordered index
 * scan through repeated rescans and returns one row per distinct value of
 * the leading column, NULL included.
 *
 * The index scan is abstracted by `SkipScanIndex.Fetch`: each call of the
 * node restarts the scan, so the row fetched is the first entry that the
 * base quals and the active skip key accept. The scan-key array is the skip
 * key at position 0 followed by the base quals; the node withholds the skip
 * key by moving the array start past it and shrinking the key count.
 */
module SkipScanExec {
  import opened Wrappers
  import opened SkipScanIndex

  /** The node's progress, a bit set. */
  type Stage = bv8

  const SearchingForFirst: Stage := 0
  const FoundVal: Stage := 1
  const FoundNull: Stage := 2
  const SearchingForNull: Stage := 4
  const SearchingForVal: Stage := 8
  const FoundNullAndVal: Stage := FoundNull | FoundVal
  const SearchingForAdditional: Stage := SearchingForNull | SearchingForVal

  predicate IsSearchingForFirstVal(stage: Stage) {
    stage == SearchingForFirst
  }

  predicate StateFoundNull(stage: Stage) {
    stage & FoundNull != 0
  }

  predicate StateFoundVal(stage: Stage) {
    stage & FoundVal != 0
  }

  predicate FoundEverything(stage: Stage) {
    stage & FoundNullAndVal == FoundNullAndVal
  }

  predicate IsSearchingForNull(stage: Stage) {
    stage & SearchingForNull == SearchingForNull
  }

  predicate IsSearchingForVal(stage: Stage) {
    stage & SearchingForVal == SearchingForVal
  }

  /**
   * Once the index scan runs dry, nothing more can come if nothing was ever
   * found, or if the NULL (non-NULL) probe under way has found no NULL
   * (non-NULL) row.
   */
  predicate IsFinished(stage: Stage) {
    || stage & FoundNullAndVal == 0
    || (IsSearchingForVal(stage) && !StateFoundVal(stage))
    || (IsSearchingForNull(stage) && !StateFoundNull(stage))
  }

  /** Number of end-of-scan probes not yet issued; bounds the node's self-recursion. */
  function ProbesLeft(stage: Stage): nat {
    (if IsSearchingForNull(stage) then 0 else 1) + (if IsSearchingForVal(stage) then 0 else 1)
  }

  /** The three `sk_flags` bits of the skip key that the node reads and writes. */
  datatype KeyFlags = KeyFlags(isNull: bool, searchNull: bool, searchNotNull: bool)

  /** The planner builds the skip qual as `column op NULL`, so the key starts with only SK_ISNULL. */
  const PlannedFlags := KeyFlags(true, false, false)

  datatype ScanKeyEntry = ScanKeyEntry(flags: KeyFlags, argument: int)

  /**
   * How the B-tree access method reads the skip key: the IS NULL / IS NOT NULL
   * search flags only take effect together with SK_ISNULL; SK_ISNULL alone is
   * a comparison against NULL; no SK_ISNULL is the ordinary comparison.
   */
  function Meaning(k: ScanKeyEntry): SkipKey {
    if k.flags.isNull then
      if k.flags.searchNull then IsNull
      else if k.flags.searchNotNull then IsNotNull
      else Unsatisfiable
    else Beyond(k.argument)
  }

  /** The plan node beneath the skip scan. */
  datatype SubScan =
    | IndexScan(numScanKeys: nat, numOrderByKeys: nat)
    | IndexOnlyScan(numScanKeys: nat, numOrderByKeys: nat)
    | OtherScan

  datatype ExecError = OrderByKeysUnsupported | UnknownSubscan

  /** A memory context to allocate in; a zero-filled field is no context at all. */
  datatype MemoryContext = NoContext | Context(id: nat)

  datatype ScanState = ScanState(
    indexOnly: bool,          // the subscan is an index-only scan
    byVal: bool,              // the distinct column's type is passed by value
    totalKeys: nat,           // skip key plus base quals, as planned
    numScanKeys: int,         // the subscan's scan-key count
    keyOffset: int,           // how far the subscan's key array starts past the skip key
    skipKey: ScanKeyEntry,    // the skip key, position 0 of the key array
    skipQualRemoved: bool,
    scanDesc: Option<int>,    // an open index scan and the key count it was begun with
    reachedEnd: Option<bool>, // the index scan's end flag; an index-only scan has none
    stage: Stage,
    prevVal: int,
    prevIsNull: bool,
    liveCopies: nat,          // copies of previous values allocated and not yet freed
    ctx: MemoryContext        // where `update_skip_key` allocates those copies
  )

  /** The copies the state can still reach: the current previous value when it is non-NULL and by reference. */
  function Owned(s: ScanState): nat {
    if !s.prevIsNull && !s.byVal then 1 else 0
  }

  predicate WellFormedState(s: ScanState) {
    && s.totalKeys >= 1
    && (s.skipQualRemoved ==> s.numScanKeys == s.totalKeys - 1 && s.keyOffset == 1 && s.scanDesc.Some?)
    && (!s.skipQualRemoved ==> s.numScanKeys == s.totalKeys && s.keyOffset == 0)
    && (s.reachedEnd.None? <==> s.indexOnly)
    && (!s.byVal ==> s.ctx.Context?)
  }

  /**
   * What a call of the node relies on: a well-formed state, nothing it would
   * free twice, a first call on a closed scan, a later call on an open one.
   */
  predicate Ready(s: ScanState) {
    && WellFormedState(s)
    && s.liveCopies >= Owned(s)
    && (IsSearchingForFirstVal(s.stage) ==> !s.skipQualRemoved && s.scanDesc.None?)
    && (!IsSearchingForFirstVal(s.stage) ==> s.scanDesc == Some(s.numScanKeys))
  }

  /** A node that has not yet returned anything since it was begun or rescanned. */
  predicate Fresh(s: ScanState) {
    && IsSearchingForFirstVal(s.stage)
    && s.prevIsNull
    && !s.skipQualRemoved
    && s.scanDesc.None?
    && s.numScanKeys == s.totalKeys
    && s.keyOffset == 0
  }

  /**
   * Node start-up: only index and index-only scans without ORDER BY
   * operators can be skipped. The node keeps the context it is begun in as
   * the one to copy previous values into.
   */
  function Begin(sub: SubScan, byVal: bool, ctx: MemoryContext): (r: Result<ScanState, ExecError>)
    requires ctx.Context?
    ensures r.Failure? <==> sub.OtherScan? || sub.numOrderByKeys > 0
    ensures r.Success? ==> Fresh(r.value) && r.value.liveCopies == Owned(r.value) == 0
    ensures r.Success? ==> r.value.skipKey.flags == PlannedFlags && r.value.byVal == byVal && r.value.ctx == ctx
    ensures r.Success? ==> (r.value.indexOnly <==> sub.IndexOnlyScan?) && r.value.totalKeys == sub.numScanKeys
    ensures r.Success? && sub.numScanKeys >= 1 ==> Ready(r.value)
  {
    match sub
    case OtherScan => Failure(UnknownSubscan)
    case IndexScan(n, orderBys) =>
      if orderBys > 0 then Failure(OrderByKeysUnsupported)
      else Success(Initial(false, byVal, n, Some(false), ctx))
    case IndexOnlyScan(n, orderBys) =>
      if orderBys > 0 then Failure(OrderByKeysUnsupported)
      else Success(Initial(true, byVal, n, None, ctx))
  }

  function Initial(indexOnly: bool, byVal: bool, n: nat, reachedEnd: Option<bool>, ctx: MemoryContext): ScanState {
    ScanState(indexOnly, byVal, n, n, 0, ScanKeyEntry(PlannedFlags, 0), false, None, reachedEnd,
              SearchingForFirst, 0, true, 0, ctx)
  }

  /**
   * Start-up as written: the node is zero-filled on creation and begin never
   * sets its context, so it has none. Calls keep the node's context
   * (`SameNode`), so on a by-reference column the first non-NULL value the
   * node records is copied with no current context.
   */
  function BeginAsWritten(sub: SubScan, byVal: bool): (r: Result<ScanState, ExecError>)
    ensures r.Failure? <==> sub.OtherScan? || sub.numOrderByKeys > 0
    ensures r.Success? ==> r.value.ctx == NoContext && r.value.byVal == byVal
    ensures r.Success? ==> (WellFormedState(r.value) <==> byVal && sub.numScanKeys >= 1)
    ensures r.Success? ==> forall t, v :: SameNode(r.value, t) ==> (CopiesWithoutContext(t, Some(v)) <==> !byVal)
  {
    match Begin(sub, byVal, Context(0))
    case Failure(e) => Failure(e)
    case Success(s) => Success(s.(ctx := NoContext))
  }

  /** `update_skip_key` would copy the row's value while no context is current. */
  predicate CopiesWithoutContext(s: ScanState, val: Option<int>) {
    val.Some? && !s.byVal && s.ctx.NoContext?
  }

  /** Withhold the skip key: the key array starts one further on and holds one key fewer. */
  function RemoveSkipQual(s: ScanState): (r: ScanState)
    requires s.numScanKeys >= 1 && !s.skipQualRemoved
    ensures r.skipQualRemoved
    ensures ReaddSkipQualIfNeeded(r) == (s, true)
  {
    s.(numScanKeys := s.numScanKeys - 1, keyOffset := s.keyOffset + 1, skipQualRemoved := true)
  }

  /** Put a withheld skip key back; reports whether it had been withheld. */
  function ReaddSkipQualIfNeeded(s: ScanState): (r: (ScanState, bool))
    ensures !r.0.skipQualRemoved
    ensures r.1 == s.skipQualRemoved
    ensures !s.skipQualRemoved ==> r.0 == s
  {
    if s.skipQualRemoved then
      (s.(keyOffset := s.keyOffset - 1, numScanKeys := s.numScanKeys + 1, skipQualRemoved := false), true)
    else (s, false)
  }

  /** End any open index scan and begin one with the current key count. */
  function BeginScan(s: ScanState): ScanState {
    s.(scanDesc := Some(s.numScanKeys))
  }

  /** The skip key the index scan applies, absent while it is withheld. */
  function ActiveKey(s: ScanState): Option<SkipKey> {
    if s.keyOffset == 0 then Some(Meaning(s.skipKey)) else None
  }

  /** Point the skip key at the previous value and set its flags for the search under way. */
  function PopulateSkipQual(s: ScanState): (r: ScanState)
    requires !s.skipQualRemoved
  {
    var flags := s.skipKey.flags;
    var newFlags :=
      if IsSearchingForNull(s.stage) then KeyFlags(true, true, false)
      else if IsSearchingForVal(s.stage) then KeyFlags(true, false, true)
      else if s.prevIsNull then
        flags.(searchNull := if StateFoundNull(s.stage) then false else flags.searchNull, isNull := true)
      else
        flags.(searchNotNull := if StateFoundVal(s.stage) then false else flags.searchNotNull, isNull := false);
    s.(skipKey := ScanKeyEntry(newFlags, s.prevVal))
  }

  /**
   * What the populated skip key asks for: the NULL probe finds NULLs, the
   * non-NULL probe finds values, after a NULL nothing more is wanted (unless a
   * stale IS NOT NULL flag survives), and after a value only values beyond it.
   */
  lemma PopulatedKeyMeaning(s: ScanState)
    requires !s.skipQualRemoved
    ensures var k := Meaning(PopulateSkipQual(s).skipKey);
      && (IsSearchingForNull(s.stage) ==> k == IsNull)
      && (!IsSearchingForNull(s.stage) && IsSearchingForVal(s.stage) ==> k == IsNotNull)
      && (!IsSearchingForNull(s.stage) && !IsSearchingForVal(s.stage) && !s.prevIsNull ==> k == Beyond(s.prevVal))
      && (!IsSearchingForNull(s.stage) && !IsSearchingForVal(s.stage) && s.prevIsNull && StateFoundNull(s.stage) ==>
            k == (if s.skipKey.flags.searchNotNull then IsNotNull else Unsatisfiable))
  {
  }

  /** Record the distinct value of a row just returned, releasing the previous copy. */
  function UpdateSkipKey(s: ScanState, val: Option<int>): (r: ScanState)
    requires s.liveCopies >= Owned(s)
    requires !CopiesWithoutContext(s, val)
    ensures r.liveCopies >= Owned(r)
    ensures s.liveCopies == Owned(s) ==> r.liveCopies == Owned(r)
    ensures r.prevIsNull <==> val.None?
    ensures val.Some? ==> r.prevVal == val.value && StateFoundVal(r.stage)
    ensures val.None? ==> StateFoundNull(r.stage)
    ensures r.stage & SearchingForAdditional == 0
    ensures r.stage & FoundNullAndVal == (s.stage & FoundNullAndVal) | ClassBit(val)
  {
    var freed := if !s.prevIsNull && !s.byVal then 1 else 0;
    var copied := if val.Some? && !s.byVal then 1 else 0;
    var stage := if val.None? then s.stage | FoundNull else s.stage | FoundVal;
    s.(prevVal := if val.Some? then val.value else 0,
       prevIsNull := val.None?,
       stage := stage & !SearchingForAdditional,
       liveCopies := s.liveCopies - freed + copied)
  }

  datatype Probe = NullProbe | NonNullProbe

  /** One call of the node: the state after it, the row position returned (None: end of scan), the probes it issued. */
  datatype Step = Step(state: ScanState, row: Option<nat>, probes: seq<Probe>)

  predicate SameNode(s: ScanState, t: ScanState) {
    s.indexOnly == t.indexOnly && s.byVal == t.byVal && s.totalKeys == t.totalKeys && s.ctx == t.ctx
  }

  /** The row returned is an accepted entry and the state records its value. */
  predicate RowRecorded(idx: Index, s: ScanState, row: nat) {
    && row < |idx.entries|
    && idx.entries[row].passes
    && (s.prevIsNull <==> idx.entries[row].key.None?)
    && (idx.entries[row].key.Some? ==> s.prevVal == idx.entries[row].key.value && StateFoundVal(s.stage))
    && (idx.entries[row].key.None? ==> StateFoundNull(s.stage))
    && s.stage & SearchingForAdditional == 0
  }

  /**
   * Probes are issued at most once per call: the NULL probe only after a
   * value and before any NULL, the non-NULL probe only after a NULL and
   * before any value, and never while the same probe is under way.
   */
  predicate ProbesAllowed(stage: Stage, probes: seq<Probe>) {
    && (probes == [] || probes == [NullProbe] || probes == [NonNullProbe])
    && (probes == [NullProbe] ==> StateFoundVal(stage) && !StateFoundNull(stage) && !IsSearchingForNull(stage))
    && (probes == [NonNullProbe] ==> StateFoundNull(stage) && !StateFoundVal(stage) && !IsSearchingForVal(stage))
  }

  /** The found bit a row's distinct value adds to the stage. */
  function ClassBit(val: Option<int>): Stage {
    if val.None? then FoundNull else FoundVal
  }

  /** What every step of the node promises relative to the state it started from. */
  predicate StepPromise(idx: Index, s: ScanState, r: Step) {
    && WellFormedState(r.state)
    && SameNode(s, r.state)
    && r.state.liveCopies >= Owned(r.state)
    && (s.liveCopies == Owned(s) ==> r.state.liveCopies == Owned(r.state))
    && (s.stage & FoundNullAndVal) & r.state.stage == s.stage & FoundNullAndVal
    && (r.row.Some? ==> RowRecorded(idx, r.state, r.row.value)
                        && r.state.stage & FoundNullAndVal == (s.stage & FoundNullAndVal) | ClassBit(idx.entries[r.row.value].key))
    && (r.row.None? ==> FoundEverything(r.state.stage) || IsFinished(r.state.stage))
    && ProbesAllowed(s.stage, r.probes)
    && (r.probes == [] ==> r.state.reachedEnd == s.reachedEnd)
    && (r.probes != [] ==> r.state.reachedEnd == (if s.reachedEnd.Some? then Some(false) else None))
    && r.state.scanDesc == Some(r.state.numScanKeys)
    && (!IsSearchingForFirstVal(s.stage) ==> !r.state.skipQualRemoved)
  }

  /**
   * The part of a call before the fetch. The first call withholds the skip
   * key and opens the scan on the base quals alone; a later call re-adds a
   * withheld key, reopening the scan because the key count changed, and then
   * populates the key.
   */
  function Prepare(s: ScanState): (r: ScanState)
    requires Ready(s)
    ensures WellFormedState(r) && SameNode(s, r)
    ensures r.stage == s.stage && r.prevIsNull == s.prevIsNull && r.prevVal == s.prevVal
    ensures r.liveCopies == s.liveCopies && r.reachedEnd == s.reachedEnd
    ensures r.scanDesc == Some(r.numScanKeys)
    ensures IsSearchingForFirstVal(s.stage) ==> r.skipQualRemoved && ActiveKey(r).None?
    ensures !IsSearchingForFirstVal(s.stage) ==>
              !r.skipQualRemoved && r == PopulateSkipQual(r) && ActiveKey(r) == Some(Meaning(r.skipKey))
  {
    if IsSearchingForFirstVal(s.stage) then
      BeginScan(RemoveSkipQual(s))
    else
      var (t, wasRemoved) := ReaddSkipQualIfNeeded(s);
      var t2 := if wasRemoved then BeginScan(t) else t;
      assert t2.scanDesc == Some(t2.numScanKeys);
      PopulateSkipQual(t2)
  }

  /** One call of the node (`ExecCustomScan`). */
  function Exec(idx: Index, s: ScanState): (r: Step)
    requires Ready(s)
    ensures StepPromise(idx, s, r)
    ensures IsSearchingForFirstVal(s.stage) ==>
              r.state.skipQualRemoved && r.state.scanDesc == Some(s.totalKeys - 1) && r.probes == []
    ensures !IsSearchingForFirstVal(s.stage) ==> r.state.scanDesc == Some(s.totalKeys)
    decreases ProbesLeft(s.stage), 2
  {
    var s1 := Prepare(s);
    var fetched := Fetch(idx, ActiveKey(s1));
    if fetched.Some? then
      Step(UpdateSkipKey(s1, idx.entries[fetched.value].key), fetched, [])
    else
      AfterExhausted(idx, s1)
  }

  /** The index scan ran dry: stop, or probe once for the class of value not yet seen. */
  function AfterExhausted(idx: Index, s: ScanState): (r: Step)
    requires WellFormedState(s) && s.liveCopies >= Owned(s) && s.scanDesc == Some(s.numScanKeys)
    requires !IsSearchingForFirstVal(s.stage) ==> !s.skipQualRemoved
    ensures StepPromise(idx, s, r)
    ensures IsSearchingForFirstVal(s.stage) ==> r == Step(s, None, [])
    ensures FoundEverything(s.stage) || IsFinished(s.stage) ==> r == Step(s, None, [])
    ensures !FoundEverything(s.stage) && !IsFinished(s.stage) ==>
              && (StateFoundVal(s.stage) != StateFoundNull(s.stage))
              && r.probes == (if StateFoundNull(s.stage) then [NonNullProbe] else [NullProbe])
    decreases ProbesLeft(s.stage), 1
  {
    if FoundEverything(s.stage) then Step(s, None, [])
    else if IsFinished(s.stage) then Step(s, None, [])
    else if !StateFoundNull(s.stage) then SearchForNull(idx, s)
    else SearchForNonNull(idx, s)
  }

  function ClearReachedEnd(s: ScanState): ScanState {
    if s.reachedEnd.Some? then s.(reachedEnd := Some(false)) else s
  }

  /** Probe for a NULL the ordering could have hidden (a NULLS LAST index). */
  function SearchForNull(idx: Index, s: ScanState): (r: Step)
    requires WellFormedState(s) && s.liveCopies >= Owned(s) && !s.skipQualRemoved
    requires s.scanDesc == Some(s.numScanKeys)
    requires StateFoundVal(s.stage) && !StateFoundNull(s.stage) && !IsSearchingForNull(s.stage)
    ensures StepPromise(idx, s, r) && r.probes == [NullProbe]
    decreases ProbesLeft(s.stage), 0
  {
    var t := ClearReachedEnd(s.(stage := s.stage | SearchingForNull));
    assert IsSearchingForNull(t.stage) && StateFoundVal(t.stage) && !StateFoundNull(t.stage);
    var inner := Exec(idx, t);
    assert inner.probes == [];
    inner.(probes := [NullProbe] + inner.probes)
  }

  /** Probe for a value after only NULLs were seen (a NULLS FIRST index). */
  function SearchForNonNull(idx: Index, s: ScanState): (r: Step)
    requires WellFormedState(s) && s.liveCopies >= Owned(s) && !s.skipQualRemoved
    requires s.scanDesc == Some(s.numScanKeys)
    requires StateFoundNull(s.stage) && !StateFoundVal(s.stage) && !IsSearchingForVal(s.stage)
    ensures StepPromise(idx, s, r) && r.probes == [NonNullProbe]
    decreases ProbesLeft(s.stage), 0
  {
    var t := ClearReachedEnd(s.(stage := s.stage | SearchingForVal));
    assert IsSearchingForVal(t.stage) && StateFoundNull(t.stage) && !StateFoundVal(t.stage);
    var inner := Exec(idx, t);
    assert inner.probes == [];
    inner.(probes := [NonNullProbe] + inner.probes)
  }

  /**
   * `ReScanCustomScan`: close the scan, put back a skip key the first call
   * withheld, and start over. The previous value is dropped without being
   * freed.
   */
  function Rescan(s: ScanState): (r: ScanState)
    requires WellFormedState(s)
    ensures Fresh(r) && Ready(r) && SameNode(s, r)
    ensures r.liveCopies == s.liveCopies && r.skipKey == s.skipKey
  {
    var t := if s.scanDesc.Some? then ReaddSkipQualIfNeeded(s).0 else s;
    t.(scanDesc := None,
       reachedEnd := if t.reachedEnd.Some? then Some(false) else None,
       prevVal := 0,
       prevIsNull := true,
       stage := SearchingForFirst)
  }

  /**
   * `Rescan` as written strands a copy: after a non-NULL value of a
   * by-reference type, the copy is still allocated but no longer reachable.
   */
  lemma RescanStrandsCopy()
    ensures var s := ScanState(false, false, 1, 1, 0, ScanKeyEntry(PlannedFlags, 0), false, Some(1), Some(false),
                               FoundVal, 7, false, 1, Context(0));
      && Ready(s) && s.liveCopies == Owned(s) == 1
      && Rescan(s).liveCopies == 1 && Owned(Rescan(s)) == 0
  {
  }

  /** `ReScanCustomScan` releasing the previous value's copy before dropping it, as `UpdateSkipKey` does. */
  function RescanReleasing(s: ScanState): (r: ScanState)
    requires WellFormedState(s) && s.liveCopies >= Owned(s)
    ensures Fresh(r) && Ready(r) && SameNode(s, r)
    ensures r.skipKey == s.skipKey
    ensures s.liveCopies == Owned(s) ==> r.liveCopies == Owned(r) == 0
  {
    Rescan(s.(liveCopies := s.liveCopies - Owned(s)))
  }
}
