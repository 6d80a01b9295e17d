/**
 * A whole run of the skip-scan node: calling it until it reports the end
 * yields every distinct value of the leading column among the rows the base
 * quals accept, NULL included, each exactly once, in index order.
 */
module SkipScanRun {
  import opened Wrappers
  import opened SkipScanIndex
  import opened SkipScanExec

  /** Call the node until it reports the end, at most `fuel` times; the flag says whether the end was reached. */
  function Drain(idx: Index, s: ScanState, fuel: nat): (r: (seq<nat>, bool))
    requires Ready(s)
    ensures forall i :: 0 <= i < |r.0| ==> r.0[i] < |idx.entries| && idx.entries[r.0[i]].passes
    ensures |r.0| <= fuel
    decreases fuel
  {
    if fuel == 0 then ([], false)
    else
      var step := Exec(idx, s);
      if step.row.None? then ([], true)
      else
        var rest := Drain(idx, step.state, fuel - 1);
        ([step.row.value] + rest.0, rest.1)
  }

  /** The distinct-column values of the rows at the given positions. */
  function Keys(idx: Index, rows: seq<nat>): (r: seq<Option<int>>)
    requires forall i :: 0 <= i < |rows| ==> rows[i] < |idx.entries|
    ensures |r| == |rows|
    ensures forall i :: 0 <= i < |rows| ==> r[i] == idx.entries[rows[i]].key
  {
    seq(|rows|, i requires 0 <= i < |rows| => idx.entries[rows[i]].key)
  }

  ghost function Elems(out: seq<Option<int>>): set<Option<int>> {
    set i | 0 <= i < |out| :: out[i]
  }

  ghost function NonNullValues(out: seq<Option<int>>): set<int> {
    set i | 0 <= i < |out| && out[i].Some? :: out[i].value
  }

  ghost predicate NoDup(out: seq<Option<int>>) {
    forall i, j :: 0 <= i < j < |out| ==> out[i] != out[j]
  }

  /** Values come out strictly in the direction the skip qual moves. */
  ghost predicate ValuesAscending(strategy: Strategy, out: seq<Option<int>>) {
    forall i, j :: 0 <= i < j < |out| && out[i].Some? && out[j].Some? ==> After(strategy, out[j].value, out[i].value)
  }

  /** A NULL comes out where the index keeps its NULLs: first under NULLS FIRST, last under NULLS LAST. */
  ghost predicate NullInPlace(idx: Index, out: seq<Option<int>>) {
    None in out ==> if idx.nullsFirst then out[0] == None else out[|out| - 1] == None
  }

  /** Every accepted key once, values in scan order, the NULL where the index keeps NULLs. */
  ghost predicate Complete(idx: Index, keys: seq<Option<int>>) {
    && NoDup(keys)
    && Elems(keys) == PassingKeys(idx)
    && ValuesAscending(idx.order, keys)
    && NullInPlace(idx, keys)
  }

  /** What the node has established after returning `out` (nonempty). */
  ghost predicate Progress(idx: Index, s: ScanState, out: seq<Option<int>>)
    requires out != []
  {
    var last := out[|out| - 1];
    && (StateFoundVal(s.stage) <==> NonNullValues(out) != {})
    && (StateFoundNull(s.stage) <==> None in out)
    && (s.prevIsNull <==> last.None?)
    && (last.Some? ==> s.prevVal == last.value && NonNullValues(out) == UpTo(idx, s.prevVal))
    && (last.None? ==> NonNullValues(out) == {} || NonNullValues(out) == PassingValues(idx))
    && (last.None? && s.skipKey.flags.searchNotNull ==> NonNullValues(out) == {})
    && (idx.nullsFirst && out[0].Some? ==> None !in PassingKeys(idx))
    && (!idx.nullsFirst && out[0].None? ==> PassingValues(idx) == {})
  }

  /** The run invariant between two calls of the node, `out` being what it has returned so far. */
  ghost predicate Between(idx: Index, s: ScanState, out: seq<Option<int>>) {
    && Ready(s)
    && s.stage & SearchingForAdditional == 0
    && NoDup(out)
    && Elems(out) <= PassingKeys(idx)
    && ValuesAscending(idx.order, out)
    && NullInPlace(idx, out)
    && (out == [] ==> IsSearchingForFirstVal(s.stage))
    && (out != [] ==> Progress(idx, s, out))
  }

  /** One call from a state satisfying the invariant either returns a new key and keeps the invariant, or ends with every key returned. */
  ghost predicate StepKeeps(idx: Index, s: ScanState, out: seq<Option<int>>)
    requires Ready(s)
  {
    && (Exec(idx, s).row.Some? ==>
          && Exec(idx, s).row.value < |idx.entries|
          && idx.entries[Exec(idx, s).row.value].key in PassingKeys(idx)
          && idx.entries[Exec(idx, s).row.value].key !in Elems(out)
          && Between(idx, Exec(idx, s).state, out + [idx.entries[Exec(idx, s).row.value].key]))
    && (Exec(idx, s).row.None? ==> Complete(idx, out))
  }

  lemma AppendFacts(out: seq<Option<int>>, k: Option<int>)
    ensures Elems(out + [k]) == Elems(out) + {k}
    ensures k.Some? ==> NonNullValues(out + [k]) == NonNullValues(out) + {k.value}
    ensures k.None? ==> NonNullValues(out + [k]) == NonNullValues(out)
    ensures (None in out + [k]) <==> (None in out || k.None?)
  {
    var o := out + [k];
    assert forall i :: 0 <= i < |out| ==> o[i] == out[i];
    assert o[|out|] == k;
    assert Elems(o) == Elems(out) + {k} by {
      forall x | x in Elems(o) ensures x in Elems(out) + {k} {
        var i :| 0 <= i < |o| && o[i] == x;
        if i < |out| {
          assert x in Elems(out);
        }
      }
    }
    if k.Some? {
      forall x | x in NonNullValues(o) ensures x in NonNullValues(out) + {k.value} {
        var i :| 0 <= i < |o| && o[i].Some? && o[i].value == x;
        if i < |out| {
          assert x in NonNullValues(out);
        }
      }
      assert k.value in NonNullValues(o) by {
        assert o[|out|].Some? && o[|out|].value == k.value;
      }
    } else {
      forall x | x in NonNullValues(o) ensures x in NonNullValues(out) {
        var i :| 0 <= i < |o| && o[i].Some? && o[i].value == x;
        assert i < |out|;
      }
    }
  }

  /** Every accepted key is NULL or one of the accepted values. */
  lemma KeysCovered(idx: Index, out: seq<Option<int>>)
    requires Elems(out) <= PassingKeys(idx)
    requires NonNullValues(out) == PassingValues(idx)
    requires None in PassingKeys(idx) ==> None in out
    ensures Elems(out) == PassingKeys(idx)
  {
    forall k | k in PassingKeys(idx) ensures k in Elems(out) {
      var i :| 0 <= i < |idx.entries| && idx.entries[i].passes && idx.entries[i].key == k;
      if k.Some? {
        assert k.value in PassingValues(idx);
        var j :| 0 <= j < |out| && out[j].Some? && out[j].value == k.value;
        assert out[j] == k;
      } else {
        var j :| 0 <= j < |out| && out[j] == None;
      }
    }
  }

  lemma AcceptedValue(idx: Index, p: nat)
    requires p < |idx.entries| && idx.entries[p].passes
    ensures idx.entries[p].key in PassingKeys(idx)
    ensures idx.entries[p].key.Some? ==> idx.entries[p].key.value in PassingValues(idx)
  {
  }

  /** The first call fetches with the skip key withheld. */
  lemma ExecFirst(idx: Index, s: ScanState)
    requires Ready(s) && IsSearchingForFirstVal(s.stage)
    ensures Exec(idx, s).row == Fetch(idx, None)
  {
    var s1 := Prepare(s);
    if Fetch(idx, None).None? {
      assert Exec(idx, s) == AfterExhausted(idx, s1);
    }
  }

  /** A call fetches under the key `Prepare` leaves in force, and falls back to `AfterExhausted` when nothing comes. */
  lemma ExecUnfold(idx: Index, s: ScanState)
    requires Ready(s)
    ensures var s1 := Prepare(s);
      var f := Fetch(idx, ActiveKey(s1));
      && (f.Some? ==> Exec(idx, s).row == f)
      && (f.None? ==> Exec(idx, s) == AfterExhausted(idx, s1))
  {
  }

  /** The key a later call puts in force. */
  lemma LaterCallKey(s: ScanState)
    requires Ready(s) && !IsSearchingForFirstVal(s.stage)
    ensures ActiveKey(Prepare(s)) == Some(Meaning(PopulateSkipQual(ReaddSkipQualIfNeeded(s).0).skipKey))
    ensures Prepare(s).stage == s.stage
  {
  }

  /** While the NULL probe is under way the call fetches under IS NULL and its row is that fetch. */
  lemma ExecProbingNull(idx: Index, s: ScanState)
    requires Ready(s) && IsSearchingForNull(s.stage) && !IsSearchingForVal(s.stage)
    requires StateFoundVal(s.stage) && !StateFoundNull(s.stage)
    ensures Exec(idx, s).row == Fetch(idx, Some(IsNull))
    ensures Exec(idx, s).row.Some? ==> Exec(idx, s).state.skipKey.flags == KeyFlags(true, true, false)
  {
    LaterCallKey(s);
    PopulatedKeyMeaning(ReaddSkipQualIfNeeded(s).0);
    ExecUnfold(idx, s);
  }

  /** While the non-NULL probe is under way the call fetches under IS NOT NULL and its row is that fetch. */
  lemma ExecProbingNonNull(idx: Index, s: ScanState)
    requires Ready(s) && IsSearchingForVal(s.stage) && !IsSearchingForNull(s.stage)
    requires StateFoundNull(s.stage) && !StateFoundVal(s.stage)
    ensures Exec(idx, s).row == Fetch(idx, Some(IsNotNull))
  {
    LaterCallKey(s);
    PopulatedKeyMeaning(ReaddSkipQualIfNeeded(s).0);
    ExecUnfold(idx, s);
  }

  /** An exhausted scan with only values seen hands over to the NULL probe. */
  lemma ExhaustedWithoutNull(idx: Index, s: ScanState)
    requires WellFormedState(s) && s.liveCopies >= Owned(s) && s.scanDesc == Some(s.numScanKeys) && !s.skipQualRemoved
    requires s.stage & SearchingForAdditional == 0 && StateFoundVal(s.stage) && !StateFoundNull(s.stage)
    ensures var s2 := ClearReachedEnd(s.(stage := s.stage | SearchingForNull));
      && Ready(s2) && IsSearchingForNull(s2.stage) && !IsSearchingForVal(s2.stage)
      && StateFoundVal(s2.stage) && !StateFoundNull(s2.stage)
      && AfterExhausted(idx, s).row == Exec(idx, s2).row
      && AfterExhausted(idx, s).state == Exec(idx, s2).state
  {
  }

  /** An exhausted scan with only NULLs seen hands over to the non-NULL probe. */
  lemma ExhaustedWithoutValue(idx: Index, s: ScanState)
    requires WellFormedState(s) && s.liveCopies >= Owned(s) && s.scanDesc == Some(s.numScanKeys) && !s.skipQualRemoved
    requires s.stage & SearchingForAdditional == 0 && StateFoundNull(s.stage) && !StateFoundVal(s.stage)
    ensures var s2 := ClearReachedEnd(s.(stage := s.stage | SearchingForVal));
      && Ready(s2) && IsSearchingForVal(s2.stage) && !IsSearchingForNull(s2.stage)
      && StateFoundNull(s2.stage) && !StateFoundVal(s2.stage)
      && AfterExhausted(idx, s).row == Exec(idx, s2).row
  {
  }

  /** After a value the node skips beyond it; when that finds nothing and no NULL was seen, it probes for one. */
  lemma ExecAfterValue(idx: Index, s: ScanState)
    requires Ready(s) && !IsSearchingForFirstVal(s.stage) && !s.prevIsNull
    requires s.stage & SearchingForAdditional == 0 && StateFoundVal(s.stage)
    ensures var r := Exec(idx, s);
      var f := Fetch(idx, Some(Beyond(s.prevVal)));
      && (f.Some? ==> r.row == f)
      && (f.None? && StateFoundNull(s.stage) ==> r.row.None?)
      && (f.None? && !StateFoundNull(s.stage) ==>
            r.row == Fetch(idx, Some(IsNull)) && (r.row.Some? ==> r.state.skipKey.flags == KeyFlags(true, true, false)))
  {
    LaterCallKey(s);
    PopulatedKeyMeaning(ReaddSkipQualIfNeeded(s).0);
    ExecUnfold(idx, s);
    var s1 := Prepare(s);
    if Fetch(idx, Some(Beyond(s.prevVal))).None? && !StateFoundNull(s.stage) {
      ExhaustedWithoutNull(idx, s1);
      ExecProbingNull(idx, ClearReachedEnd(s1.(stage := s1.stage | SearchingForNull)));
    }
  }

  /** After a NULL the key admits nothing (or, with a stale IS NOT NULL flag, any value); when no value was seen, the node probes for one. */
  lemma ExecAfterNull(idx: Index, s: ScanState)
    requires Ready(s) && !IsSearchingForFirstVal(s.stage) && s.prevIsNull
    requires s.stage & SearchingForAdditional == 0 && StateFoundNull(s.stage)
    ensures var r := Exec(idx, s);
      var f := Fetch(idx, Some(if s.skipKey.flags.searchNotNull then IsNotNull else Unsatisfiable));
      && (f.Some? ==> r.row == f)
      && (f.None? && StateFoundVal(s.stage) ==> r.row.None?)
      && (f.None? && !StateFoundVal(s.stage) ==> r.row == Fetch(idx, Some(IsNotNull)))
  {
    LaterCallKey(s);
    PopulatedKeyMeaning(ReaddSkipQualIfNeeded(s).0);
    ExecUnfold(idx, s);
    var s1 := Prepare(s);
    var key := if s.skipKey.flags.searchNotNull then IsNotNull else Unsatisfiable;
    if Fetch(idx, Some(key)).None? && !StateFoundVal(s.stage) {
      ExhaustedWithoutValue(idx, s1);
      ExecProbingNonNull(idx, ClearReachedEnd(s1.(stage := s1.stage | SearchingForVal)));
    }
  }

  /** How the found bits move when a row of a given class is recorded. */
  lemma FoundBits(before: Stage, after: Stage, k: Option<int>)
    requires after & FoundNullAndVal == (before & FoundNullAndVal) | ClassBit(k)
    ensures !IsSearchingForFirstVal(after)
    ensures StateFoundVal(after) <==> StateFoundVal(before) || k.Some?
    ensures StateFoundNull(after) <==> StateFoundNull(before) || k.None?
  {
  }

  /** Values already returned lie behind a value the scan has moved beyond. */
  lemma BeyondAll(idx: Index, out: seq<Option<int>>, v: int, u: int)
    requires NonNullValues(out) == UpTo(idx, v) && After(idx.order, u, v)
    ensures Some(u) !in Elems(out)
    ensures forall i :: 0 <= i < |out| && out[i].Some? ==> After(idx.order, u, out[i].value)
  {
    forall i | 0 <= i < |out| && out[i].Some? ensures After(idx.order, u, out[i].value) {
      assert out[i].value in NonNullValues(out);
    }
  }

  /** A key sequence with no value in it holds only NULLs. */
  lemma NullsOnly(out: seq<Option<int>>)
    ensures NonNullValues(out) == {} ==> forall i :: 0 <= i < |out| ==> out[i].None?
    ensures NonNullValues(out) == {} && NoDup(out) ==> |out| <= 1
  {
    if i :| 0 <= i < |out| && out[i].Some? {
      assert out[i].value in NonNullValues(out);
    }
    if |out| > 1 && out[0].None? && out[1].None? {
      assert out[0] == out[1];
    }
  }

  /** A run that has returned no value and ends in a NULL returned nothing but that NULL. */
  lemma OnlyNull(out: seq<Option<int>>)
    requires out != [] && NoDup(out) && NonNullValues(out) == {}
    ensures out == [None]
  {
    NullsOnly(out);
    assert out[0] == None;
  }

  /** The first call returns the first accepted row and sets up the invariant. */
  lemma {:induction false} StepFirst(idx: Index, s: ScanState)
    requires WellFormed(idx) && Between(idx, s, [])
    ensures StepKeeps(idx, s, [])
  {
    var r := Exec(idx, s);
    ExecFirst(idx, s);
    FetchUnkeyed(idx);
    if r.row.Some? {
      var k := idx.entries[r.row.value].key;
      var out := [k];
      FoundBits(s.stage, r.state.stage, k);
      AppendFacts([], k);
      assert [] + [k] == out;
      assert NonNullValues([]) == {};
      AcceptedValue(idx, r.row.value);
      assert Elems(out) <= PassingKeys(idx);
      assert out[|out| - 1] == k && out[0] == k;
      assert Progress(idx, r.state, out);
    }
  }

  /** After a value: the next value, the NULL the probe finds, or the end once every key is out. */
  lemma {:induction false} StepAfterValue(idx: Index, s: ScanState, out: seq<Option<int>>)
    requires WellFormed(idx) && Between(idx, s, out) && out != [] && out[|out| - 1].Some?
    ensures StepKeeps(idx, s, out)
  {
    var r := Exec(idx, s);
    var v := s.prevVal;
    var f := Fetch(idx, Some(Beyond(v)));
    assert v in NonNullValues(out);
    ExecAfterValue(idx, s);
    FetchBeyond(idx, v);
    FetchNull(idx);
    if r.row.Some? {
      var p := r.row.value;
      var k := idx.entries[p].key;
      var out2 := out + [k];
      FoundBits(s.stage, r.state.stage, k);
      AppendFacts(out, k);
      AcceptedValue(idx, p);
      if f.Some? {
        BeyondAll(idx, out, v, k.value);
        assert NoDup(out2) by {
          forall i, j | 0 <= i < j < |out2| ensures out2[i] != out2[j] {
            if j == |out| {
              assert out2[i] in Elems(out);
            }
          }
        }
        assert ValuesAscending(idx.order, out2);
      } else {
        assert k.None? && None !in out;
        assert out[0].Some?;
        assert !idx.nullsFirst;
        assert NoDup(out2) by {
          forall i, j | 0 <= i < j < |out2| ensures out2[i] != out2[j] {
            if j == |out| {
              assert out2[i] in out;
            }
          }
        }
        assert ValuesAscending(idx.order, out2);
      }
      assert out2[0] == out[0] && out2[|out2| - 1] == k;
      assert NullInPlace(idx, out2);
      assert Progress(idx, r.state, out2);
    } else {
      assert None in PassingKeys(idx) ==> None in out;
      KeysCovered(idx, out);
    }
  }

  /** After a NULL: the least value the non-NULL probe finds, or the end once every key is out. */
  lemma {:induction false} StepAfterNull(idx: Index, s: ScanState, out: seq<Option<int>>)
    requires WellFormed(idx) && Between(idx, s, out) && out != [] && out[|out| - 1].None?
    ensures StepKeeps(idx, s, out)
  {
    var r := Exec(idx, s);
    ExecAfterNull(idx, s);
    FetchNotNull(idx);
    FetchUnsatisfiable(idx);
    if r.row.Some? {
      var p := r.row.value;
      var k := idx.entries[p].key;
      var out2 := out + [k];
      OnlyNull(out);
      FoundBits(s.stage, r.state.stage, k);
      AppendFacts(out, k);
      AcceptedValue(idx, p);
      assert idx.nullsFirst;
      assert out2 == [None, k];
      assert Progress(idx, r.state, out2);
    } else {
      KeysCovered(idx, out);
    }
  }

  /** One call from the run invariant keeps it or ends the run with every key out. */
  lemma StepFromBetween(idx: Index, s: ScanState, out: seq<Option<int>>)
    requires WellFormed(idx) && Between(idx, s, out)
    ensures StepKeeps(idx, s, out)
  {
    if out == [] {
      StepFirst(idx, s);
    } else if out[|out| - 1].Some? {
      StepAfterValue(idx, s, out);
    } else {
      StepAfterNull(idx, s, out);
    }
  }

  /** Returning a new accepted key leaves one key fewer to go. */
  lemma OneFewer(idx: Index, out: seq<Option<int>>, k: Option<int>)
    requires k in PassingKeys(idx) && k !in Elems(out)
    ensures |PassingKeys(idx) - Elems(out + [k])| == |PassingKeys(idx) - Elems(out)| - 1
  {
    AppendFacts(out, k);
    assert PassingKeys(idx) - Elems(out + [k]) == (PassingKeys(idx) - Elems(out)) - {k};
  }

  lemma KeysCons(idx: Index, out: seq<Option<int>>, p: nat, rows: seq<nat>)
    requires p < |idx.entries| && forall i :: 0 <= i < |rows| ==> rows[i] < |idx.entries|
    ensures out + Keys(idx, [p] + rows) == (out + [idx.entries[p].key]) + Keys(idx, rows)
  {
    assert Keys(idx, [p] + rows) == [idx.entries[p].key] + Keys(idx, rows);
  }

  /** One call of `Drain`. */
  lemma DrainOnce(idx: Index, s: ScanState, fuel: nat)
    requires Ready(s) && fuel > 0
    ensures var step := Exec(idx, s);
      var r := Drain(idx, s, fuel);
      && (step.row.None? ==> r == ([], true))
      && (step.row.Some? ==> r == ([step.row.value] + Drain(idx, step.state, fuel - 1).0, Drain(idx, step.state, fuel - 1).1))
  {
  }

  /** `fuel` calls from `s` reach the end, and with `out` returned before, every key has come out once. */
  ghost predicate DrainsAll(idx: Index, s: ScanState, out: seq<Option<int>>, fuel: nat) {
    Ready(s) && Drain(idx, s, fuel).1 && Complete(idx, out + Keys(idx, Drain(idx, s, fuel).0))
  }

  /** A call that reports the end completes the run when every key is already out. */
  lemma DrainEnds(idx: Index, s: ScanState, out: seq<Option<int>>, fuel: nat)
    requires Ready(s) && fuel > 0 && Exec(idx, s).row.None? && Complete(idx, out)
    ensures DrainsAll(idx, s, out, fuel)
  {
    DrainOnce(idx, s, fuel);
    assert out + Keys(idx, []) == out;
  }

  /** The call from `s` returns the row at `p` and leaves the node in `next`. */
  ghost predicate StepsTo(idx: Index, s: ScanState, p: nat, next: ScanState) {
    Ready(s) && Exec(idx, s).row == Some(p) && Exec(idx, s).state == next
  }

  /**
   * A call that returns the row at `p` completes the run when the remaining
   * calls complete it with that row's key added (`out2`, `rest` being `out`
   * extended by the key and the remaining fuel).
   */
  lemma DrainContinues(idx: Index, s: ScanState, out: seq<Option<int>>, fuel: nat,
                       p: nat, next: ScanState, out2: seq<Option<int>>, rest: nat)
    requires StepsTo(idx, s, p, next) && fuel > 0 && rest == fuel - 1
    requires p < |idx.entries| && out2 == out + [idx.entries[p].key]
    ensures DrainsAll(idx, next, out2, rest) ==> DrainsAll(idx, s, out, fuel)
  {
    DrainOnce(idx, s, fuel);
    KeysCons(idx, out, p, Drain(idx, next, rest).0);
  }

  /** From the run invariant, enough calls drain every remaining key exactly once. */
  lemma {:induction false} DrainFrom(idx: Index, s: ScanState, out: seq<Option<int>>, fuel: nat)
    requires WellFormed(idx) && Between(idx, s, out)
    requires fuel > |PassingKeys(idx) - Elems(out)|
    ensures DrainsAll(idx, s, out, fuel)
    decreases fuel, 1
  {
    StepFromBetween(idx, s, out);
    var step := Exec(idx, s);
    if step.row.None? {
      DrainEnds(idx, s, out, fuel);
    } else {
      var k := idx.entries[step.row.value].key;
      OneFewer(idx, out, k);
      DrainFromRow(idx, s, out, fuel, step.row.value, step.state, out + [k], fuel - 1);
    }
  }

  /** The induction step of `DrainFrom`, for a call that returns a row. */
  lemma {:induction false} DrainFromRow(idx: Index, s: ScanState, out: seq<Option<int>>, fuel: nat,
                                        p: nat, next: ScanState, out2: seq<Option<int>>, rest: nat)
    requires StepsTo(idx, s, p, next) && fuel > 0 && rest == fuel - 1
    requires p < |idx.entries| && out2 == out + [idx.entries[p].key]
    requires WellFormed(idx) && Between(idx, next, out2) && rest > |PassingKeys(idx) - Elems(out2)|
    ensures DrainsAll(idx, s, out, fuel)
    decreases fuel, 0
  {
    DrainContinues(idx, s, out, fuel, p, next, out2, rest);
    DrainFrom(idx, next, out2, rest);
  }

  /**
   * The node's promise: called on a fresh scan until it reports the end, it
   * does report the end, and the distinct-column keys of the rows it returned
   * are exactly the keys of the accepted rows, NULL included, each once,
   * values in scan order and the NULL where the index keeps its NULLs.
   */
  lemma RunYieldsEachDistinctValueOnce(idx: Index, s: ScanState)
    requires WellFormed(idx) && Ready(s) && IsSearchingForFirstVal(s.stage)
    ensures var r := Drain(idx, s, |PassingKeys(idx)| + 1);
      r.1 && Complete(idx, Keys(idx, r.0))
  {
    var r := Drain(idx, s, |PassingKeys(idx)| + 1);
    StartBetween(idx, s);
    DrainFrom(idx, s, [], |PassingKeys(idx)| + 1);
    assert [] + Keys(idx, r.0) == Keys(idx, r.0);
  }

  lemma StartBetween(idx: Index, s: ScanState)
    requires Ready(s) && IsSearchingForFirstVal(s.stage)
    ensures Between(idx, s, []) && |PassingKeys(idx) - Elems([])| == |PassingKeys(idx)|
  {
    assert Elems([]) == {};
  }

  /** An ascending index holding 1, 2, 3, scanned backward, with the comparator `>`. */
  function BackwardExample(): Index {
    Index([Entry(Some(3), true), Entry(Some(2), true), Entry(Some(1), true)], BTLess, BTGreater, true)
  }

  /**
   * A run that stops after one row: the first call returns the row at `p`
   * holding `v`, and afterwards neither a value beyond `v` nor a NULL is found.
   */
  lemma {:induction false} OneRowRun(idx: Index, s: ScanState, p: nat, v: int, fuel: nat)
    requires Ready(s) && IsSearchingForFirstVal(s.stage) && fuel >= 2
    requires Fetch(idx, None) == Some(p) && idx.entries[p].key == Some(v)
    requires Fetch(idx, Some(Beyond(v))) == None && Fetch(idx, Some(IsNull)) == None
    ensures Drain(idx, s, fuel) == ([p], true)
  {
    ExecFirst(idx, s);
    var st := Exec(idx, s).state;
    assert RowRecorded(idx, st, p);
    FoundBits(s.stage, st.stage, Some(v));
    assert Ready(st) && st.prevVal == v && !st.prevIsNull && !StateFoundNull(st.stage);
    ExecAfterValue(idx, st);
    DrainOnce(idx, st, fuel - 1);
    DrainOnce(idx, s, fuel);
    assert [p] + Drain(idx, st, fuel - 1).0 == [p];
  }

  /** The example index is ordered (descending, as a backward scan of 1, 2, 3 delivers it) but its comparator is not aligned. */
  lemma BackwardExampleShape()
    ensures Ordered(BackwardExample()) && !Aligned(BackwardExample())
    ensures PassingKeys(BackwardExample()) == {Some(3), Some(2), Some(1)}
    ensures |PassingKeys(BackwardExample())| == 3
  {
    var idx := BackwardExample();
    assert idx.entries[0].key == Some(3) && idx.entries[1].key == Some(2) && idx.entries[2].key == Some(1);
    assert PassingKeys(idx) == {Some(3), Some(2), Some(1)};
  }

  /** What the cursor finds in the example under the keys the run uses. */
  lemma BackwardExampleFetches()
    ensures Fetch(BackwardExample(), None) == Some(0) && BackwardExample().entries[0].key == Some(3)
    ensures Fetch(BackwardExample(), Some(Beyond(3))) == None
    ensures Fetch(BackwardExample(), Some(IsNull)) == None
  {
  }

  /**
   * The as-written comparator on a backward scan: from any fresh node, the
   * first call returns 3, the second asks for a value above 3, which a
   * backward scan never reaches, the NULL probe finds no NULL, and the run
   * ends having returned one value of three.
   */
  lemma {:induction false} BackwardScanStopsEarly(s: ScanState)
    requires Ready(s) && IsSearchingForFirstVal(s.stage)
    ensures Ordered(BackwardExample()) && !Aligned(BackwardExample())
    ensures |PassingKeys(BackwardExample())| == 3
    ensures Drain(BackwardExample(), s, |PassingKeys(BackwardExample())| + 1) == ([0], true)
    ensures !Complete(BackwardExample(), Keys(BackwardExample(), [0]))
  {
    var idx := BackwardExample();
    BackwardExampleShape();
    BackwardExampleFetches();
    OneRowRun(idx, s, 0, 3, 4);
    assert Keys(idx, [0]) == [Some(3)];
    assert Some(2) in PassingKeys(idx) && Some(2) !in Elems(Keys(idx, [0]));
  }
}
