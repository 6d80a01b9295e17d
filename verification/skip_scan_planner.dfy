/**
 * Planner side of the skip scan: deciding whether a Unique path over an
 * index scan (or over a merge-append of index scans) can be replaced by a
 * skip scan, and building the per-column skip quals when it can.
 *
 * Paths, index descriptions and the system catalog are abstract values: an
 * index path carries what the eligibility checks read, and the catalog is a
 * pair of maps standing for the attribute and operator-family lookups.
 */
module SkipScanPlanner {
  import opened Wrappers
  import opened SkipScanIndex

  /** An operand of an index qual, before and after one binary-compatible relabeling. */
  datatype Operand = Var | Const | Relabel(arg: Operand) | OtherExpr

  datatype OpKind = OpExpr | RowCompare | ScalarArrayOp

  datatype Clause =
    | OpClause(kind: OpKind, left: Operand, right: Operand)
    | NullTest
    | OtherClause

  /** One relabeling node is looked through, no more. */
  function StripRelabel(e: Operand): (r: Operand)
    ensures e.Relabel? ==> r == e.arg
    ensures !e.Relabel? ==> r == e
  {
    if e.Relabel? then e.arg else e
  }

  /** An operand the scan can evaluate before it starts: a column or a constant. */
  predicate PlainOperand(e: Operand) {
    var x := StripRelabel(e);
    x.Var? || x.Const?
  }

  /** A qual whose value is only known at run time. NULL tests never are; unknown clause kinds always are. */
  predicate IsRuntimeKey(c: Clause) {
    match c
    case OpClause(_, l, r) => !PlainOperand(l) || !PlainOperand(r)
    case NullTest => false
    case OtherClause => true
  }

  /** `index_path_contains_runtime_keys`: scan the quals in order and stop at the first runtime key. */
  function ContainsRuntimeKeys(quals: seq<Clause>): (r: bool)
    ensures r <==> exists i :: 0 <= i < |quals| && IsRuntimeKey(quals[i])
  {
    if quals == [] then false
    else
      match quals[0]
      case OpClause(_, l, rt) =>
        var leftOk := StripRelabel(l).Var? || StripRelabel(l).Const?;
        var rightOk := StripRelabel(rt).Var? || StripRelabel(rt).Const?;
        if !leftOk || !rightOk then true
        else
          var rest := ContainsRuntimeKeys(quals[1..]);
          assert forall i :: 1 <= i < |quals| ==> quals[i] == quals[1..][i - 1];
          rest
      case NullTest =>
        var rest := ContainsRuntimeKeys(quals[1..]);
        assert forall i :: 1 <= i < |quals| ==> quals[i] == quals[1..][i - 1];
        rest
      case OtherClause => true
  }

  /** One key column of an index: the table column it indexes (0 for an expression) and its sort direction. */
  datatype IndexColumn = IndexColumn(tableCol: int, reverseSort: bool, collation: int)

  datatype IndexPath = IndexPath(
    sortOpFamilies: Option<seq<int>>,  // per-column B-tree opfamily; None for a non-orderable index
    unique: bool,
    numOrderBys: nat,
    quals: seq<Clause>,
    columns: seq<IndexColumn>,
    rel: int,                          // the table's relation id
    backward: bool                     // the path scans the index in backward direction
  )

  /** A well-formed index description: at least one key column, one opfamily per column. */
  predicate ValidIndexPath(ip: IndexPath) {
    && |ip.columns| >= 1
    && (ip.sortOpFamilies.Some? ==> |ip.sortOpFamilies.value| == |ip.columns|)
  }

  /** A `pg_attribute` row as the planner reads it; `typeId == 0` is the invalid type. */
  datatype Attribute = Attribute(typeId: int, typmod: int, collation: int, byVal: bool, typLen: int)

  /**
   * The catalog lookups: attributes by (relation, column number), and the
   * operator-family members by (opfamily, type, strategy), left and right
   * operand types being the same. A missing key is a failed lookup.
   */
  datatype Catalog = Catalog(attributes: map<(int, int), Attribute>, comparators: map<(int, int, Strategy), int>)

  /**
   * The direction the column's values move in as the scan proceeds
   * (`BTGreater`: ascending). A forward scan follows the column's sort order
   * and a backward scan reverses it.
   */
  function ScanOrder(col: IndexColumn, backward: bool): Strategy {
    if col.reverseSort == backward then BTGreater else BTLess
  }

  /**
   * The comparator `create_index_skip_skan_path` picks, from the column's
   * sort order alone: `<` on a reverse-sorted column, `>` otherwise. It moves
   * the way the scan does only when the scan runs forward.
   */
  function StrategyAsWritten(col: IndexColumn): (r: Strategy)
    ensures r == BTLess <==> col.reverseSort
    ensures forall backward: bool :: r == ScanOrder(col, backward) <==> !backward
  {
    if col.reverseSort then BTLess else BTGreater
  }

  /**
   * The comparator that skips past a value in the direction the path scans:
   * the as-written choice on a forward scan, its opposite on a backward one.
   */
  function StrategyFor(col: IndexColumn, backward: bool): (r: Strategy)
    ensures r == ScanOrder(col, backward)
    ensures r == StrategyAsWritten(col) <==> !backward
  {
    var asWritten := StrategyAsWritten(col);
    if !backward then asWritten
    else if asWritten == BTLess then BTGreater else BTLess
  }

  /** The skip qual for one column: `column op NULL`, the NULL constant being filled in at run time. */
  datatype SkipQual = SkipQual(op: int, strategy: Strategy, tableCol: int, typeId: int, typmod: int,
                               collation: int, inputCollation: int)

  /** What a skip-scan path records per distinct column. */
  datatype SkipColumn = SkipColumn(qual: SkipQual, indexCol: nat, byVal: bool, typLen: int)

  /** Which path the new node's costs and output are copied from. */
  datatype Origin = FromUnique | FromIndex

  datatype SkipScanPath = SkipScanPath(origin: Origin, index: IndexPath, columns: seq<SkipColumn>)

  /** The conditions under which index column `col` can be skipped over. */
  ghost predicate ColumnUsable(cat: Catalog, ip: IndexPath, col: nat)
    requires col < |ip.columns| && ip.sortOpFamilies.Some? && |ip.sortOpFamilies.value| == |ip.columns|
  {
    var c := ip.columns[col];
    && c.tableCol != 0
    && (ip.rel, c.tableCol) in cat.attributes
    && cat.attributes[(ip.rel, c.tableCol)].typeId != 0
    && (ip.sortOpFamilies.value[col], cat.attributes[(ip.rel, c.tableCol)].typeId, StrategyFor(c, ip.backward)) in cat.comparators
  }

  /** An index path a skip scan over its first `n` columns can replace. */
  ghost predicate Eligible(cat: Catalog, ip: IndexPath, n: nat)
    requires ValidIndexPath(ip) && n <= |ip.columns|
  {
    && ip.sortOpFamilies.Some?
    && !ip.unique
    && ip.numOrderBys == 0
    && (forall i :: 0 <= i < |ip.quals| ==> !IsRuntimeKey(ip.quals[i]))
    && (forall col :: 0 <= col < n ==> ColumnUsable(cat, ip, col))
  }

  /** The skip column built for index column `col` once it is known to be usable. */
  ghost predicate BuiltFor(cat: Catalog, ip: IndexPath, col: nat, sc: SkipColumn)
    requires col < |ip.columns| && ip.sortOpFamilies.Some? && |ip.sortOpFamilies.value| == |ip.columns|
    requires ColumnUsable(cat, ip, col)
  {
    var c := ip.columns[col];
    var a := cat.attributes[(ip.rel, c.tableCol)];
    && sc.indexCol == col
    && sc.byVal == a.byVal && sc.typLen == a.typLen
    && sc.qual.strategy == StrategyFor(c, ip.backward)
    && sc.qual.op == cat.comparators[(ip.sortOpFamilies.value[col], a.typeId, StrategyFor(c, ip.backward))]
    && sc.qual.tableCol == c.tableCol
    && sc.qual.typeId == a.typeId && sc.qual.typmod == a.typmod && sc.qual.collation == a.collation
    && sc.qual.inputCollation == c.collation
  }

  /** The per-column loop of `create_index_skip_skan_path`, from column `col` up to `n`. */
  function BuildColumns(cat: Catalog, ip: IndexPath, col: nat, n: nat): (r: Option<seq<SkipColumn>>)
    requires ValidIndexPath(ip) && ip.sortOpFamilies.Some? && col <= n <= |ip.columns|
    ensures r.Some? <==> forall c :: col <= c < n ==> ColumnUsable(cat, ip, c)
    ensures r.Some? ==> |r.value| == n - col
    ensures r.Some? ==> forall i :: 0 <= i < |r.value| ==> BuiltFor(cat, ip, col + i, r.value[i])
    decreases n - col
  {
    if col == n then Some([])
    else
      var c := ip.columns[col];
      if c.tableCol == 0 then assert !ColumnUsable(cat, ip, col); None
      else if (ip.rel, c.tableCol) !in cat.attributes then assert !ColumnUsable(cat, ip, col); None
      else
        var a := cat.attributes[(ip.rel, c.tableCol)];
        if a.typeId == 0 then assert !ColumnUsable(cat, ip, col); None
        else
          var strategy := StrategyFor(c, ip.backward);
          var key := (ip.sortOpFamilies.value[col], a.typeId, strategy);
          if key !in cat.comparators then assert !ColumnUsable(cat, ip, col); None
          else
            var qual := SkipQual(cat.comparators[key], strategy, c.tableCol, a.typeId, a.typmod, a.collation, c.collation);
            var rest := BuildColumns(cat, ip, col + 1, n);
            if rest.None? then None
            else Some([SkipColumn(qual, col, a.byVal, a.typLen)] + rest.value)
  }

  /** `create_index_skip_skan_path`: the skip-scan path over the first `n` index columns, if the index allows one. */
  function CreateSkipScanPath(cat: Catalog, ip: IndexPath, n: nat, forAppend: bool): (r: Option<SkipScanPath>)
    requires ValidIndexPath(ip) && n <= |ip.columns|
    ensures r.Some? <==> Eligible(cat, ip, n)
    ensures r.Some? ==> r.value.index == ip && |r.value.columns| == n
    ensures r.Some? ==> forall i :: 0 <= i < n ==> BuiltFor(cat, ip, i, r.value.columns[i])
    ensures r.Some? ==> (r.value.origin == FromIndex <==> forAppend)
  {
    if ip.sortOpFamilies.None? then None
    else if ip.unique then None
    else if ip.numOrderBys != 0 then None
    else if ContainsRuntimeKeys(ip.quals) then None
    else
      var cols := BuildColumns(cat, ip, 0, n);
      if cols.None? then None
      else Some(SkipScanPath(if forAppend then FromIndex else FromUnique, ip, cols.value))
  }

  /** A child of a merge-append, and what it becomes. */
  datatype Child = IndexChild(ip: IndexPath) | OtherChild(id: int)

  datatype NewChild = Kept(child: Child) | Skipped(path: SkipScanPath)

  datatype SubPath = IndexSub(ip: IndexPath) | MergeAppendSub(children: seq<Child>) | OtherSub

  datatype Path = UniquePath(numKeys: nat, sub: SubPath) | OtherPath

  /** The path added to the output relation: a skip scan replacing the Unique, or a new Unique over a rebuilt merge-append. */
  datatype Added = SkipInsteadOfUnique(path: SkipScanPath) | UniqueOverMergeAppend(numKeys: nat, children: seq<NewChild>)

  predicate ValidChild(c: Child) {
    c.IndexChild? ==> ValidIndexPath(c.ip)
  }

  predicate ValidPath(p: Path) {
    && (p.UniquePath? && p.sub.IndexSub? ==> ValidIndexPath(p.sub.ip))
    && (p.UniquePath? && p.sub.MergeAppendSub? ==> forall i :: 0 <= i < |p.sub.children| ==> ValidChild(p.sub.children[i]))
  }

  /** Replace each eligible index child of a merge-append in place; report whether any was replaced. */
  function ConvertChildren(cat: Catalog, children: seq<Child>, n: nat): (r: (seq<NewChild>, bool))
    requires n <= 1
    requires forall i :: 0 <= i < |children| ==> ValidChild(children[i])
    ensures |r.0| == |children|
    ensures forall i :: 0 <= i < |children| ==>
              if Convertible(cat, children[i], n)
              then r.0[i] == Skipped(CreateSkipScanPath(cat, children[i].ip, n, true).value)
              else r.0[i] == Kept(children[i])
    ensures r.1 <==> exists i :: 0 <= i < |r.0| && r.0[i].Skipped?
  {
    if children == [] then ([], false)
    else
      var c := children[0];
      assert ValidChild(c);
      var head :=
        if c.IndexChild? then
          var sp := CreateSkipScanPath(cat, c.ip, n, true);
          if sp.Some? then Skipped(sp.value) else Kept(c)
        else Kept(c);
      var rest := ConvertChildren(cat, children[1..], n);
      var out := [head] + rest.0;
      assert forall i :: 1 <= i < |out| ==> out[i] == rest.0[i - 1] && children[i] == children[1..][i - 1];
      (out, head.Skipped? || rest.1)
  }

  /** A child of a merge-append that becomes a skip scan over its first `n` columns. */
  predicate Convertible(cat: Catalog, c: Child, n: nat) {
    && c.IndexChild? && ValidIndexPath(c.ip) && n <= |c.ip.columns|
    && CreateSkipScanPath(cat, c.ip, n, true).Some?
  }

  /** A path the loop passes over without stopping. */
  ghost predicate PassedOver(cat: Catalog, p: Path)
    requires ValidPath(p)
  {
    || !p.UniquePath?
    || p.numKeys > 1
    || p.sub.OtherSub?
    || (p.sub.IndexSub? && CreateSkipScanPath(cat, p.sub.ip, p.numKeys, false).None?)
  }

  /**
   * `ts_add_skip_skan_paths`: walk the output relation's paths and add at
   * most one new path. The walk stops at the first Unique on at most one key
   * that is over an eligible index scan or over a merge-append, and `Decide`
   * says what is added there; if it stops nowhere, nothing is added.
   */
  function AddSkipScanPaths(enabled: bool, cat: Catalog, paths: seq<Path>): (r: Option<Added>)
    requires forall i :: 0 <= i < |paths| ==> ValidPath(paths[i])
    ensures !enabled ==> r.None?
    ensures enabled && (forall i :: 0 <= i < |paths| ==> PassedOver(cat, paths[i])) ==> r.None?
    ensures enabled ==> forall i :: 0 <= i < |paths| && !PassedOver(cat, paths[i]) &&
                                    (forall j :: 0 <= j < i ==> PassedOver(cat, paths[j])) ==>
                                    r == Decide(cat, paths[i])
  {
    if !enabled || paths == [] then None
    else
      var p := paths[0];
      assert ValidPath(p);
      var rest := AddSkipScanPaths(enabled, cat, paths[1..]);
      assert forall i :: 1 <= i < |paths| ==> paths[i] == paths[1..][i - 1];
      if !p.UniquePath? || p.numKeys > 1 then rest
      else
        match p.sub
        case IndexSub(ip) =>
          var sp := CreateSkipScanPath(cat, ip, p.numKeys, false);
          if sp.None? then rest
          else Some(SkipInsteadOfUnique(sp.value))
        case MergeAppendSub(children) =>
          var (newChildren, converted) := ConvertChildren(cat, children, p.numKeys);
          if !converted then None else Some(UniqueOverMergeAppend(p.numKeys, newChildren))
        case OtherSub => rest
  }

  /** What is added at the path the walk stops at. */
  function Decide(cat: Catalog, p: Path): (r: Option<Added>)
    requires ValidPath(p) && !PassedOver(cat, p)
    ensures p.sub.IndexSub? ==>
              && r.Some? && r.value.SkipInsteadOfUnique?
              && r.value.path.index == p.sub.ip && r.value.path.origin == FromUnique
              && |r.value.path.columns| == p.numKeys
              && Eligible(cat, p.sub.ip, p.numKeys)
    ensures p.sub.MergeAppendSub? ==>
              (r.Some? <==> exists i :: 0 <= i < |p.sub.children| && Convertible(cat, p.sub.children[i], p.numKeys))
    ensures p.sub.MergeAppendSub? && r.Some? ==>
              && r.value.UniqueOverMergeAppend? && r.value.numKeys == p.numKeys
              && |r.value.children| == |p.sub.children|
              && forall i :: 0 <= i < |p.sub.children| ==>
                   if Convertible(cat, p.sub.children[i], p.numKeys)
                   then r.value.children[i].Skipped? && r.value.children[i].path.origin == FromIndex
                   else r.value.children[i] == Kept(p.sub.children[i])
  {
    match p.sub
    case IndexSub(ip) => Some(SkipInsteadOfUnique(CreateSkipScanPath(cat, ip, p.numKeys, false).value))
    case MergeAppendSub(children) =>
      var (newChildren, converted) := ConvertChildren(cat, children, p.numKeys);
      if !converted then None
      else Some(UniqueOverMergeAppend(p.numKeys, newChildren))
  }
}
