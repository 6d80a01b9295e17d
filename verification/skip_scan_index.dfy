/**
 * The ordered index a skip scan runs over, seen only through its cursor.
 *
 * The index is a sequence of entries in scan order. Each entry carries the
 * value of the distinct (leading) column, `None` standing for SQL NULL, and
 * whether the remaining index quals of the scan accept it. Non-NULL values
 * come out ascending or descending (a forward scan of an ascending column
 * ascends; a reverse-sorted column or a backward scan turns that around), and
 * the NULLs sit either all before or all after them in scan order. The skip
 * qual's comparator is recorded separately: the planner chooses it, and it
 * need not agree with the direction the scan actually moves in.
 */
module SkipScanIndex {
  import opened Wrappers

  /** B-tree strategy of the comparison operator used to skip past a value. */
  datatype Strategy = BTLess | BTGreater

  /** `a` lies strictly beyond `b` in the order the skip qual moves along. */
  predicate After(strategy: Strategy, a: int, b: int) {
    match strategy
    case BTGreater => a > b
    case BTLess => a < b
  }

  datatype Entry = Entry(key: Option<int>, passes: bool)

  /**
   * `order` is the direction the distinct column's values move in as the scan
   * proceeds (BTGreater: ascending), which depends on the column's sort order
   * and on the scan direction; `strategy` is the comparator of the skip qual.
   */
  datatype Index = Index(entries: seq<Entry>, order: Strategy, strategy: Strategy, nullsFirst: bool)

  /** Non-NULL values never go backwards in scan order. */
  ghost predicate Sorted(idx: Index) {
    forall i, j :: 0 <= i < j < |idx.entries| && idx.entries[i].key.Some? && idx.entries[j].key.Some? ==>
      !After(idx.order, idx.entries[i].key.value, idx.entries[j].key.value)
  }

  /** NULLs are grouped before (NULLS FIRST) or after (NULLS LAST) every value. */
  ghost predicate NullsPlaced(idx: Index) {
    if idx.nullsFirst then
      forall i, j :: 0 <= i < j < |idx.entries| && idx.entries[i].key.Some? ==> idx.entries[j].key.Some?
    else
      forall i, j :: 0 <= i < j < |idx.entries| && idx.entries[i].key.None? ==> idx.entries[j].key.None?
  }

  /** What a B-tree scan delivers in either direction: values in order, NULLs at one end. */
  ghost predicate Ordered(idx: Index) {
    Sorted(idx) && NullsPlaced(idx)
  }

  /** The skip qual moves the way the scan does: "beyond the previous value" means "later in the scan". */
  predicate Aligned(idx: Index) {
    idx.strategy == idx.order
  }

  /** The index as the skip scan needs it. */
  ghost predicate WellFormed(idx: Index) {
    Ordered(idx) && Aligned(idx)
  }

  /**
   * What the skip qual asks of the distinct column once the access method has
   * interpreted its flags: a value beyond the previous one, IS NULL,
   * IS NOT NULL, or a comparison against NULL, which no row satisfies.
   */
  datatype SkipKey = Beyond(prev: int) | IsNull | IsNotNull | Unsatisfiable

  predicate Satisfies(strategy: Strategy, k: SkipKey, v: Option<int>) {
    match k
    case Beyond(p) => v.Some? && After(strategy, v.value, p)
    case IsNull => v.None?
    case IsNotNull => v.Some?
    case Unsatisfiable => false
  }

  /** An entry the scan returns: the base quals accept it and so does the active skip key, if any. */
  predicate Matches(idx: Index, active: Option<SkipKey>, e: Entry) {
    e.passes && (active.None? || Satisfies(idx.strategy, active.value, e.key))
  }

  /** Position of the first matching entry at or after `from`. */
  function FirstMatch(idx: Index, active: Option<SkipKey>, from: nat): (r: Option<nat>)
    requires from <= |idx.entries|
    ensures r.Some? ==> from <= r.value < |idx.entries| && Matches(idx, active, idx.entries[r.value])
    ensures r.Some? ==> forall j :: from <= j < r.value ==> !Matches(idx, active, idx.entries[j])
    ensures r.None? ==> forall j :: from <= j < |idx.entries| ==> !Matches(idx, active, idx.entries[j])
    decreases |idx.entries| - from
  {
    if from == |idx.entries| then None
    else if Matches(idx, active, idx.entries[from]) then Some(from)
    else FirstMatch(idx, active, from + 1)
  }

  /**
   * The cursor after a (re)scan: every call of the skip scan restarts the
   * index scan, so the row it fetches is the first matching entry.
   */
  function Fetch(idx: Index, active: Option<SkipKey>): Option<nat> {
    FirstMatch(idx, active, 0)
  }

  /** The distinct-column keys (NULL included) of all rows the base quals accept. */
  ghost function PassingKeys(idx: Index): set<Option<int>> {
    set i | 0 <= i < |idx.entries| && idx.entries[i].passes :: idx.entries[i].key
  }

  /** The non-NULL distinct-column values of all rows the base quals accept. */
  ghost function PassingValues(idx: Index): set<int> {
    set i | 0 <= i < |idx.entries| && idx.entries[i].passes && idx.entries[i].key.Some? :: idx.entries[i].key.value
  }

  /** Accepted values not beyond `v` in scan order: those a scan that has reached `v` has already passed. */
  ghost function UpTo(idx: Index, v: int): set<int> {
    set w | w in PassingValues(idx) && !After(idx.order, w, v)
  }

  /** Without a skip key the first row carries the least value, if it is not NULL. */
  lemma FetchUnkeyed(idx: Index)
    requires Sorted(idx)
    ensures var r := Fetch(idx, None);
      && (r.None? ==> PassingKeys(idx) == {})
      && (r.Some? && idx.entries[r.value].key.Some? ==>
            UpTo(idx, idx.entries[r.value].key.value) == {idx.entries[r.value].key.value})
      && (r.Some? && idx.entries[r.value].key.Some? && idx.nullsFirst && NullsPlaced(idx) ==>
            None !in PassingKeys(idx))
      && (r.Some? && idx.entries[r.value].key.None? && !idx.nullsFirst && NullsPlaced(idx) ==>
            PassingValues(idx) == {})
  {
    var r := Fetch(idx, None);
    if r.None? {
      if k :| k in PassingKeys(idx) {
        var i :| 0 <= i < |idx.entries| && idx.entries[i].passes && idx.entries[i].key == k;
        assert Matches(idx, None, idx.entries[i]);
      }
    } else {
      var p := r.value;
      if idx.entries[p].key.Some? {
        var v := idx.entries[p].key.value;
        forall w | w in UpTo(idx, v) ensures w == v {
          var i :| 0 <= i < |idx.entries| && idx.entries[i].passes && idx.entries[i].key == Some(w);
          assert Matches(idx, None, idx.entries[i]);
        }
        assert v in PassingValues(idx);
        if idx.nullsFirst && NullsPlaced(idx) && None in PassingKeys(idx) {
          var i :| 0 <= i < |idx.entries| && idx.entries[i].passes && idx.entries[i].key == None;
          assert Matches(idx, None, idx.entries[i]);
        }
      }
    }
  }

  /**
   * Skipping past `v` lands on the next accepted value: everything up to the
   * row found is what was passed before plus that row.
   */
  lemma FetchBeyond(idx: Index, v: int)
    requires Sorted(idx) && Aligned(idx)
    ensures var r := Fetch(idx, Some(Beyond(v)));
      && (r.None? ==> UpTo(idx, v) == PassingValues(idx))
      && (r.Some? ==>
            && idx.entries[r.value].key.Some?
            && After(idx.strategy, idx.entries[r.value].key.value, v)
            && UpTo(idx, idx.entries[r.value].key.value) == UpTo(idx, v) + {idx.entries[r.value].key.value})
  {
    var r := Fetch(idx, Some(Beyond(v)));
    if r.None? {
      forall w | w in PassingValues(idx) ensures w in UpTo(idx, v) {
        var i :| 0 <= i < |idx.entries| && idx.entries[i].passes && idx.entries[i].key == Some(w);
        assert !Matches(idx, Some(Beyond(v)), idx.entries[i]);
      }
    } else {
      var p := r.value;
      var u := idx.entries[p].key.value;
      assert u in PassingValues(idx);
      forall w | w in UpTo(idx, u) ensures w in UpTo(idx, v) || w == u {
        var i :| 0 <= i < |idx.entries| && idx.entries[i].passes && idx.entries[i].key == Some(w);
        if i < p {
          assert !Matches(idx, Some(Beyond(v)), idx.entries[i]);
        }
      }
    }
  }

  /** IS NOT NULL finds the least accepted value, or nothing when every accepted row is NULL. */
  lemma FetchNotNull(idx: Index)
    requires Sorted(idx)
    ensures var r := Fetch(idx, Some(IsNotNull));
      && (r.None? ==> PassingValues(idx) == {})
      && (r.Some? ==>
            && idx.entries[r.value].key.Some?
            && UpTo(idx, idx.entries[r.value].key.value) == {idx.entries[r.value].key.value})
  {
    var r := Fetch(idx, Some(IsNotNull));
    if r.None? {
      if w :| w in PassingValues(idx) {
        var i :| 0 <= i < |idx.entries| && idx.entries[i].passes && idx.entries[i].key == Some(w);
        assert Matches(idx, Some(IsNotNull), idx.entries[i]);
      }
    } else {
      var p := r.value;
      var u := idx.entries[p].key.value;
      assert u in PassingValues(idx);
      forall w | w in UpTo(idx, u) ensures w == u {
        var i :| 0 <= i < |idx.entries| && idx.entries[i].passes && idx.entries[i].key == Some(w);
        assert Matches(idx, Some(IsNotNull), idx.entries[i]);
      }
    }
  }

  /** IS NULL finds an accepted NULL exactly when one exists. */
  lemma FetchNull(idx: Index)
    ensures var r := Fetch(idx, Some(IsNull));
      && (r.None? <==> None !in PassingKeys(idx))
      && (r.Some? ==> idx.entries[r.value].key.None?)
  {
    var r := Fetch(idx, Some(IsNull));
    if None in PassingKeys(idx) {
      var i :| 0 <= i < |idx.entries| && idx.entries[i].passes && idx.entries[i].key == None;
      assert Matches(idx, Some(IsNull), idx.entries[i]);
    }
  }

  /** A comparison against NULL never matches. */
  lemma FetchUnsatisfiable(idx: Index)
    ensures Fetch(idx, Some(Unsatisfiable)).None?
  {
  }
}
