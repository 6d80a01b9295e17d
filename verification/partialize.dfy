/**
 * Partial aggregation: a `partialize(agg(...))` call in a SELECT's target
 * list marks the aggregate inside it as one whose partial (serialized
 * transition) state is returned instead of its final value.
 *
 * Expressions are trees whose list nodes are flattened into their parent's
 * children; the walker visits every node in preorder, the way
 * `expression_tree_walker` recursing through the walker itself does.
 */
module Partialize {
  import opened Wrappers

  /** Type identifiers the planner compares against. */
  const InternalType: int := 2281  // INTERNALOID
  const ByteaType: int := 17       // BYTEAOID

  /** The aggregate split modes the model distinguishes; `InitialSerial` skips the final function and serializes. */
  datatype AggSplit = Simple | InitialSerial | FinalDeserial

  datatype Kind =
    | Aggref(split: AggSplit, transType: int, aggType: int)
    | FuncExpr(funcName: string)
    | OtherNode(tag: int)

  /** An expression node (or NULL) and its children in walk order. */
  datatype Node = Null | Node(kind: Kind, children: seq<Node>)

  datatype WalkState = WalkState(foundPartialize: bool, lookingForAgg: bool)

  datatype PartializeError =
    | NotAnAggregate   // "The input to partialize must be an aggregate"
    | MixedAggregates  // "Cannot mix partialized and non-partialized aggregates in the same statement"

  predicate IsPartializeCall(k: Kind) {
    k.FuncExpr? && k.funcName == "partialize"
  }

  /** The aggregate as it is after being marked: split for a serialized partial, typed as its transition state. */
  function Partialized(k: Kind): (r: Kind)
    requires k.Aggref?
    ensures r.Aggref? && r.split == InitialSerial && r.transType == k.transType
    ensures r.aggType == (if k.transType == InternalType then ByteaType else k.transType)
  {
    var t := if k.transType == InternalType then ByteaType else k.transType;
    Aggref(InitialSerial, k.transType, t)
  }

  /** What `partialize_function_call_walker` does at one node before descending into it. */
  function Visit(k: Kind, st: WalkState): (r: Result<(Kind, WalkState), PartializeError>)
    ensures st.lookingForAgg && !k.Aggref? <==> r.Failure?
    ensures r.Failure? ==> r.error == NotAnAggregate
    ensures st.lookingForAgg && r.Success? ==> r.value == (Partialized(k), st.(lookingForAgg := false))
    ensures !st.lookingForAgg && IsPartializeCall(k) ==> r == Success((k, WalkState(true, true)))
    ensures !st.lookingForAgg && !IsPartializeCall(k) ==> r == Success((k, st))
  {
    if st.lookingForAgg then
      if !k.Aggref? then Failure(NotAnAggregate)
      else
        var transType := k.transType;
        var aggType := if transType == InternalType then ByteaType else transType;
        Success((Aggref(InitialSerial, transType, aggType), st.(lookingForAgg := false)))
    else if k.FuncExpr? && k.funcName == "partialize" then
      Success((k, st.(foundPartialize := true, lookingForAgg := true)))
    else Success((k, st))
  }

  /** The non-NULL nodes of a tree, in the order the walker visits them. */
  function Preorder(n: Node): seq<Kind>
    decreases n, 1
  {
    match n
    case Null => []
    case Node(k, ch) => [k] + PreorderList(ch)
  }

  function PreorderList(ns: seq<Node>): seq<Kind>
    decreases ns, 0
  {
    if ns == [] then [] else Preorder(ns[0]) + PreorderList(ns[1..])
  }

  /** Two trees with the same structure, NULLs and child counts included. */
  predicate SameShape(a: Node, b: Node)
    decreases a, 1
  {
    match a
    case Null => b.Null?
    case Node(_, ch) => b.Node? && SameShapeList(ch, b.children)
  }

  predicate SameShapeList(a: seq<Node>, b: seq<Node>)
    decreases a, 0
  {
    |a| == |b| && (a == [] || (SameShape(a[0], b[0]) && SameShapeList(a[1..], b[1..])))
  }

  /** `partialize_function_call_walker` on one node: visit it, then walk its children. */
  function Walk(n: Node, st: WalkState): (r: Result<(Node, WalkState), PartializeError>)
    ensures r.Success? ==> SameShape(n, r.value.0)
    ensures r.Failure? ==> r.error == NotAnAggregate
    decreases n, 1
  {
    match n
    case Null => Success((Null, st))
    case Node(k, ch) =>
      match Visit(k, st)
      case Failure(e) => Failure(e)
      case Success((k', st')) =>
        match WalkList(ch, st')
        case Failure(e) => Failure(e)
        case Success((ch', st'')) => Success((Node(k', ch'), st''))
  }

  /** `expression_tree_walker` over a list of nodes: walk each in order, threading the state. */
  function WalkList(ns: seq<Node>, st: WalkState): (r: Result<(seq<Node>, WalkState), PartializeError>)
    ensures r.Success? ==> SameShapeList(ns, r.value.0)
    ensures r.Failure? ==> r.error == NotAnAggregate
    decreases ns, 0
  {
    if ns == [] then Success(([], st))
    else
      match Walk(ns[0], st)
      case Failure(e) => Failure(e)
      case Success((n', st')) =>
        match WalkList(ns[1..], st')
        case Failure(e) => Failure(e)
        case Success((rest, st'')) =>
          assert ([n'] + rest)[1..] == rest;
          Success(([n'] + rest, st''))
  }

  /** The same visit applied along a flat sequence of nodes. */
  function Scan(ks: seq<Kind>, st: WalkState): Result<(seq<Kind>, WalkState), PartializeError> {
    if ks == [] then Success(([], st))
    else
      match Visit(ks[0], st)
      case Failure(e) => Failure(e)
      case Success((k', st')) =>
        match Scan(ks[1..], st')
        case Failure(e) => Failure(e)
        case Success((rest, st'')) => Success(([k'] + rest, st''))
  }

  /** Whether the walker is looking for an aggregate when it reaches position `i` of a scan. */
  function LookingAt(ks: seq<Kind>, looking: bool, i: nat): bool
    requires i <= |ks|
  {
    if i == 0 then looking else IsPartializeCall(ks[i - 1])
  }

  /**
   * The scan, stated position by position: it fails exactly when a node
   * reached while looking for an aggregate is not one; otherwise exactly
   * those nodes are partialized, `foundPartialize` records whether any
   * partialize call was seen, and the walker is left looking for an
   * aggregate exactly when the last node was such a call.
   */
  lemma {:induction false} ScanSpec(ks: seq<Kind>, st: WalkState)
    ensures Scan(ks, st).Success? <==> forall i :: 0 <= i < |ks| && LookingAt(ks, st.lookingForAgg, i) ==> ks[i].Aggref?
    ensures Scan(ks, st).Failure? ==> Scan(ks, st).error == NotAnAggregate
    ensures Scan(ks, st).Success? ==>
              var out := Scan(ks, st).value.0;
              && |out| == |ks|
              && (forall i :: 0 <= i < |ks| ==>
                    out[i] == if LookingAt(ks, st.lookingForAgg, i) then Partialized(ks[i]) else ks[i])
    ensures Scan(ks, st).Success? ==>
              var st' := Scan(ks, st).value.1;
              && (st'.foundPartialize <==> st.foundPartialize || exists i :: 0 <= i < |ks| && IsPartializeCall(ks[i]))
              && st'.lookingForAgg == LookingAt(ks, st.lookingForAgg, |ks|)
  {
    if ks != [] {
      var v := Visit(ks[0], st);
      if v.Success? {
        var st1 := v.value.1;
        assert st1.lookingForAgg == IsPartializeCall(ks[0]);
        ScanSpec(ks[1..], st1);
        assert forall i :: 1 <= i <= |ks| ==> LookingAt(ks, st.lookingForAgg, i) == LookingAt(ks[1..], st1.lookingForAgg, i - 1);
        assert forall i :: 1 <= i < |ks| ==> ks[i] == ks[1..][i - 1];
        if Scan(ks[1..], st1).Success? {
          var out := Scan(ks, st).value.0;
          assert out == [v.value.0] + Scan(ks[1..], st1).value.0;
          assert forall i :: 1 <= i < |ks| ==> out[i] == Scan(ks[1..], st1).value.0[i - 1];
          assert (exists i :: 0 <= i < |ks| && IsPartializeCall(ks[i])) <==>
                 IsPartializeCall(ks[0]) || exists i :: 0 <= i < |ks[1..]| && IsPartializeCall(ks[1..][i]);
        } else {
          var i :| 0 <= i < |ks[1..]| && LookingAt(ks[1..], st1.lookingForAgg, i) && !ks[1..][i].Aggref?;
          assert LookingAt(ks, st.lookingForAgg, i + 1) && !ks[i + 1].Aggref?;
        }
      } else {
        assert LookingAt(ks, st.lookingForAgg, 0) && !ks[0].Aggref?;
      }
    }
  }

  /** Scanning a concatenation is scanning the first part and then the second from the state it leaves. */
  lemma {:induction false} ScanConcat(a: seq<Kind>, b: seq<Kind>, st: WalkState)
    ensures Scan(a + b, st) ==
              match Scan(a, st)
              case Failure(e) => Failure(e)
              case Success((a', st')) =>
                match Scan(b, st')
                case Failure(e) => Failure(e)
                case Success((b', st'')) => Success((a' + b', st''))
  {
    if a == [] {
      assert a + b == b;
      match Scan(b, st)
      case Failure(_) =>
      case Success((b', _)) => assert [] + b' == b';
    } else {
      assert (a + b)[0] == a[0] && (a + b)[1..] == a[1..] + b;
      match Visit(a[0], st)
      case Failure(_) =>
      case Success((k', st1)) =>
        ScanConcat(a[1..], b, st1);
        match Scan(a[1..], st1)
        case Failure(_) =>
        case Success((a1, st2)) =>
          match Scan(b, st2)
          case Failure(_) =>
          case Success((b', _)) => assert [k'] + (a1 + b') == ([k'] + a1) + b';
    }
  }

  /**
   * The tree walk is the flat scan of the tree's preorder: it fails with the
   * same error, ends in the same state, and the walked tree's preorder is the
   * scanned sequence.
   */
  lemma {:induction false} WalkIsScan(n: Node, st: WalkState)
    ensures Walk(n, st).Failure? <==> Scan(Preorder(n), st).Failure?
    ensures Walk(n, st).Success? ==>
              && Preorder(Walk(n, st).value.0) == Scan(Preorder(n), st).value.0
              && Walk(n, st).value.1 == Scan(Preorder(n), st).value.1
    decreases n, 1
  {
    match n
    case Null =>
    case Node(k, ch) =>
      assert Preorder(n) == [k] + PreorderList(ch);
      assert ([k] + PreorderList(ch))[1..] == PreorderList(ch);
      match Visit(k, st)
      case Failure(_) =>
      case Success((k', st1)) =>
        WalkListIsScan(ch, st1);
  }

  lemma {:induction false} WalkListIsScan(ns: seq<Node>, st: WalkState)
    ensures WalkList(ns, st).Failure? <==> Scan(PreorderList(ns), st).Failure?
    ensures WalkList(ns, st).Success? ==>
              && PreorderList(WalkList(ns, st).value.0) == Scan(PreorderList(ns), st).value.0
              && WalkList(ns, st).value.1 == Scan(PreorderList(ns), st).value.1
    decreases ns, 0
  {
    if ns != [] {
      WalkIsScan(ns[0], st);
      ScanConcat(Preorder(ns[0]), PreorderList(ns[1..]), st);
      match Walk(ns[0], st)
      case Failure(_) =>
      case Success((n', st1)) =>
        WalkListIsScan(ns[1..], st1);
        match WalkList(ns[1..], st1)
        case Failure(_) =>
        case Success((rest, _)) =>
          assert ([n'] + rest)[0] == n' && ([n'] + rest)[1..] == rest;
    }
  }

  /** `ensure_only_partials`: every aggregate anywhere in the tree must already be a serialized partial. */
  function EnsureOnlyPartials(n: Node): (r: Result<(), PartializeError>)
    ensures r.Success? <==> forall i :: 0 <= i < |Preorder(n)| && Preorder(n)[i].Aggref? ==> Preorder(n)[i].split == InitialSerial
    ensures r.Failure? ==> r.error == MixedAggregates
    decreases n, 1
  {
    match n
    case Null => Success(())
    case Node(k, ch) =>
      assert Preorder(n) == [k] + PreorderList(ch);
      assert Preorder(n)[0] == k;
      assert forall i :: 0 <= i < |PreorderList(ch)| ==> PreorderList(ch)[i] == Preorder(n)[i + 1];
      if k.Aggref? && k.split != InitialSerial then Failure(MixedAggregates)
      else EnsureOnlyPartialsList(ch)
  }

  function EnsureOnlyPartialsList(ns: seq<Node>): (r: Result<(), PartializeError>)
    ensures r.Success? <==> forall i :: 0 <= i < |PreorderList(ns)| && PreorderList(ns)[i].Aggref? ==> PreorderList(ns)[i].split == InitialSerial
    ensures r.Failure? ==> r.error == MixedAggregates
    decreases ns, 0
  {
    if ns == [] then Success(())
    else
      var p := PreorderList(ns);
      assert p == Preorder(ns[0]) + PreorderList(ns[1..]);
      var h := Preorder(ns[0]);
      assert forall i :: 0 <= i < |h| ==> h[i] == p[i];
      assert forall i :: 0 <= i < |PreorderList(ns[1..])| ==> PreorderList(ns[1..])[i] == p[i + |h|];
      match EnsureOnlyPartials(ns[0])
      case Failure(e) => Failure(e)
      case Success(_) => EnsureOnlyPartialsList(ns[1..])
  }

  datatype CmdType = Select | Update | Insert | Delete | Utility

  /** A path of the input or output relation; only aggregation paths carry a split mode. */
  datatype PlanPath = AggPath(split: AggSplit, id: int) | OtherPath(id: int)

  /** Every aggregation path switched to producing serialized partials; other paths as they were. */
  function MarkAggPaths(ps: seq<PlanPath>): (r: seq<PlanPath>)
    ensures |r| == |ps|
    ensures forall i :: 0 <= i < |ps| ==>
              r[i] == if ps[i].AggPath? then AggPath(InitialSerial, ps[i].id) else ps[i]
  {
    if ps == [] then []
    else
      var p := ps[0];
      [if p.AggPath? then p.(split := InitialSerial) else p] + MarkAggPaths(ps[1..])
  }

  datatype Planned = Planned(targetList: seq<Node>, inputPaths: seq<PlanPath>, outputPaths: seq<PlanPath>)

  /** Some node of the preorder is a call to `partialize`. */
  predicate HasPartializeCall(ks: seq<Kind>) {
    exists i :: 0 <= i < |ks| && IsPartializeCall(ks[i])
  }

  /** Some node right after a partialize call is not an aggregate: the walk of a target list with this preorder fails. */
  predicate WalkRejects(ks: seq<Kind>) {
    exists i :: 0 <= i < |ks| && LookingAt(ks, false, i) && !ks[i].Aggref?
  }

  /** Some aggregate that no partialize call wraps is not already a serialized partial. */
  predicate MixesAggregates(ks: seq<Kind>) {
    exists i :: 0 <= i < |ks| && !LookingAt(ks, false, i) && ks[i].Aggref? && ks[i].split != InitialSerial
  }

  /**
   * `plan_add_partialize`: outside a SELECT nothing changes. Otherwise the
   * target list is walked; if a partialize call was found, all aggregates
   * in the (walked) target list must be partials, and every aggregation
   * path of both relations is switched to serialized partials.
   */
  function PlanAddPartialize(cmd: CmdType, targetList: seq<Node>, inputPaths: seq<PlanPath>,
                             outputPaths: seq<PlanPath>): (r: Result<Planned, PartializeError>)
    ensures cmd != Select ==> r == Success(Planned(targetList, inputPaths, outputPaths))
    ensures cmd == Select && !HasPartializeCall(PreorderList(targetList)) ==>
              r == Success(Planned(targetList, inputPaths, outputPaths))
    ensures cmd == Select ==> (r == Failure(NotAnAggregate) <==> WalkRejects(PreorderList(targetList)))
    ensures cmd == Select ==>
              (r == Failure(MixedAggregates) <==>
                 && !WalkRejects(PreorderList(targetList))
                 && HasPartializeCall(PreorderList(targetList))
                 && MixesAggregates(PreorderList(targetList)))
    ensures r.Failure? ==> cmd == Select && HasPartializeCall(PreorderList(targetList))
    ensures cmd == Select && HasPartializeCall(PreorderList(targetList)) && r.Success? ==>
              var ks := PreorderList(targetList);
              var out := PreorderList(r.value.targetList);
              && r.value.inputPaths == MarkAggPaths(inputPaths)
              && r.value.outputPaths == MarkAggPaths(outputPaths)
              && SameShapeList(targetList, r.value.targetList)
              && |out| == |ks|
              && (forall i :: 0 <= i < |ks| ==> out[i] == if LookingAt(ks, false, i) then Partialized(ks[i]) else ks[i])
              && (forall i :: 0 <= i < |out| && out[i].Aggref? ==> out[i].split == InitialSerial)
  {
    if cmd != Select then Success(Planned(targetList, inputPaths, outputPaths))
    else
      var st0 := WalkState(false, false);
      var ks := PreorderList(targetList);
      WalkListIsScan(targetList, st0);
      ScanSpec(ks, st0);
      match WalkList(targetList, st0)
      case Failure(e) =>
        var i :| 0 <= i < |ks| && LookingAt(ks, false, i) && !ks[i].Aggref?;
        assert IsPartializeCall(ks[i - 1]);
        Failure(e)
      case Success((walked, st)) =>
        if !st.foundPartialize then
          UnchangedWithoutPartialize(targetList, st0);
          Success(Planned(targetList, inputPaths, outputPaths))
        else
          var out := PreorderList(walked);
          assert forall i :: 0 <= i < |ks| && LookingAt(ks, false, i) ==> out[i].Aggref? && out[i].split == InitialSerial;
          assert MixesAggregates(ks) <==> exists i :: 0 <= i < |out| && out[i].Aggref? && out[i].split != InitialSerial;
          match EnsureOnlyPartialsList(walked)
          case Failure(e) => Failure(e)
          case Success(_) => Success(Planned(walked, MarkAggPaths(inputPaths), MarkAggPaths(outputPaths)))
  }

  /** A walk that meets no partialize call, starting without looking for an aggregate, changes nothing. */
  lemma {:induction false} UnchangedWithoutPartialize(ns: seq<Node>, st: WalkState)
    requires !st.lookingForAgg
    requires forall i :: 0 <= i < |PreorderList(ns)| ==> !IsPartializeCall(PreorderList(ns)[i])
    ensures WalkList(ns, st) == Success((ns, st))
    decreases ns, 0
  {
    if ns != [] {
      var p := PreorderList(ns);
      assert p == Preorder(ns[0]) + PreorderList(ns[1..]);
      assert forall i :: 0 <= i < |Preorder(ns[0])| ==> Preorder(ns[0])[i] == p[i];
      assert forall i :: 0 <= i < |PreorderList(ns[1..])| ==> PreorderList(ns[1..])[i] == p[i + |Preorder(ns[0])|];
      UnchangedNode(ns[0], st);
      UnchangedWithoutPartialize(ns[1..], st);
      assert [ns[0]] + ns[1..] == ns;
    }
  }

  lemma {:induction false} UnchangedNode(n: Node, st: WalkState)
    requires !st.lookingForAgg
    requires forall i :: 0 <= i < |Preorder(n)| ==> !IsPartializeCall(Preorder(n)[i])
    ensures Walk(n, st) == Success((n, st))
    decreases n, 1
  {
    match n
    case Null =>
    case Node(k, ch) =>
      assert Preorder(n) == [k] + PreorderList(ch);
      assert Preorder(n)[0] == k;
      assert forall i :: 0 <= i < |PreorderList(ch)| ==> PreorderList(ch)[i] == Preorder(n)[i + 1];
      UnchangedWithoutPartialize(ch, st);
  }

  /**
   * The null and bytea branches of `ts_partialize`: NULL in, NULL out; a
   * bytea argument is returned as it is. Any other argument goes through the
   * type's binary send function, supplied by the caller.
   */
  function PartializeCall<D>(arg: Option<D>, argType: int, send: (int, D) -> D): (r: Option<D>)
    ensures arg.None? <==> r.None?
    ensures argType == ByteaType ==> r == arg
  {
    if arg.None? then None
    else if argType == ByteaType then arg
    else Some(send(argType, arg.value))
  }
}
