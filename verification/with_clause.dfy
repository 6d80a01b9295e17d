/**
 * The WITH-clause option parser: splitting `WITH (...)` options by
 * namespace, matching each option against a table of known arguments,
 * turning its value into a datum and handing it to a per-argument
 * callback, and the boolean value parser.
 *
 * Strings are `seq<char>` without the terminating NUL. Name comparison is
 * `pg_strcasecmp`, which folds the ASCII letters `A`-`Z`.
 */
module WithClause {
  import opened Wrappers

  /** One `namespace.name = value` option; the namespace and the value may be absent. */
  datatype DefElem = DefElem(namespace: Option<string>, name: string, arg: Option<string>)

  /** A datum produced for an option: the raw string, a boolean, or a value of another type. */
  datatype Value = Text(s: string) | Bool(b: bool) | OtherValue(id: int)

  datatype WithError =
    | Unrecognized(namespace: Option<string>, name: string)        // "unrecognized parameter"
    | InvalidOrDuplicate(namespace: Option<string>, name: string)  // "invalid or duplicate parameter"
    | InvalidValue(namespace: Option<string>, name: string, value: string, typeName: string)
    | NotImplemented(namespace: Option<string>, name: string)
    | ParseFailed(namespace: Option<string>, name: string, message: string)

  /** How an argument's string is turned into a datum; `Raw` is the NULL deserializer. */
  datatype Deserializer =
    | Raw
    | Unimplemented
    | BoolValue
    | External(parse: string -> Result<Value, string>)  // a parser from outside this model, failing with a message

  /** One row of an argument table. */
  datatype Arg = Arg(name: string, deserializer: Deserializer)

  /** The ASCII case fold applied by `pg_strcasecmp`. */
  function FoldChar(c: char): (r: char)
    ensures 'A' <= c <= 'Z' ==> 'a' <= r <= 'z' && r as int - c as int == 'a' as int - 'A' as int
    ensures !('A' <= c <= 'Z') ==> r == c
  {
    if 'A' <= c <= 'Z' then (c as int - 'A' as int + 'a' as int) as char else c
  }

  /** A string with every ASCII capital folded. */
  function Fold(s: string): (r: string)
    ensures |r| == |s| && forall i :: 0 <= i < |s| ==> r[i] == FoldChar(s[i])
  {
    seq(|s|, i requires 0 <= i < |s| => FoldChar(s[i]))
  }

  /** `pg_strcasecmp(a, b) == 0`: compare folded characters until either string ends. */
  function CaseEq(a: string, b: string): (r: bool)
    ensures r <==> Fold(a) == Fold(b)
  {
    if a == [] || b == [] then a == b
    else
      var rest := CaseEq(a[1..], b[1..]);
      assert Fold(a) == [FoldChar(a[0])] + Fold(a[1..]);
      assert Fold(b) == [FoldChar(b[0])] + Fold(b[1..]);
      FoldChar(a[0]) == FoldChar(b[0]) && rest
  }

  /** Options in the `hypertable` namespace, compared case-insensitively. */
  predicate InHypertable(e: DefElem) {
    e.namespace.Some? && CaseEq(e.namespace.value, "hypertable")
  }

  /** The options whose namespace membership is `inside`, in input order. */
  function Select(elems: seq<DefElem>, inside: bool): (r: seq<DefElem>)
    ensures forall i :: 0 <= i < |r| ==> InHypertable(r[i]) == inside
  {
    if elems == [] then []
    else
      var rest := Select(elems[1..], inside);
      if InHypertable(elems[0]) == inside then [elems[0]] + rest else rest
  }

  /** The two selections partition the options: together they hold each option exactly once. */
  lemma {:induction false} SelectPartitions(elems: seq<DefElem>)
    ensures multiset(Select(elems, true)) + multiset(Select(elems, false)) == multiset(elems)
  {
    if elems != [] {
      SelectPartitions(elems[1..]);
      assert elems == [elems[0]] + elems[1..];
    }
  }

  /**
   * `ts_with_clause_filter`: append each option to the within-namespace list
   * or to the other list; an absent list (passed as NULL) drops what would
   * have gone to it. The namespace argument is not consulted: membership is
   * always compared with `hypertable`.
   */
  method Filter(elems: seq<DefElem>, within: Option<seq<DefElem>>, notWithin: Option<seq<DefElem>>)
    returns (within': Option<seq<DefElem>>, notWithin': Option<seq<DefElem>>)
    ensures within'.Some? == within.Some? && notWithin'.Some? == notWithin.Some?
    ensures within.Some? ==> within'.value == within.value + Select(elems, true)
    ensures notWithin.Some? ==> notWithin'.value == notWithin.value + Select(elems, false)
  {
    within', notWithin' := within, notWithin;
    var k := 0;
    while k < |elems|
      invariant 0 <= k <= |elems|
      invariant within'.Some? == within.Some? && notWithin'.Some? == notWithin.Some?
      invariant within.Some? ==> within'.value == within.value + Select(elems[..k], true)
      invariant notWithin.Some? ==> notWithin'.value == notWithin.value + Select(elems[..k], false)
    {
      var e := elems[k];
      assert elems[..k + 1] == elems[..k] + [e];
      SelectSnoc(elems[..k], e, true);
      SelectSnoc(elems[..k], e, false);
      if InHypertable(e) {
        if within'.Some? {
          within' := Some(within'.value + [e]);
        }
      } else if notWithin'.Some? {
        notWithin' := Some(notWithin'.value + [e]);
      }
      k := k + 1;
    }
    assert elems[..k] == elems;
  }

  /** Selecting from a run extended by one option extends the selection by that option or by nothing. */
  lemma {:induction false} SelectSnoc(elems: seq<DefElem>, e: DefElem, inside: bool)
    ensures InHypertable(e) == inside ==> Select(elems + [e], inside) == Select(elems, inside) + [e]
    ensures InHypertable(e) != inside ==> Select(elems + [e], inside) == Select(elems, inside)
  {
    if elems == [] {
      assert [] + [e] == [e];
      assert [e][1..] == [];
    } else {
      assert (elems + [e])[1..] == elems[1..] + [e];
      SelectSnoc(elems[1..], e, inside);
    }
  }

  /** Argument `i` is the first table entry whose name matches `name`. */
  predicate FirstMatchAt(args: seq<Arg>, name: string, i: int) {
    && 0 <= i < |args|
    && Fold(args[i].name) == Fold(name)
    && forall j :: 0 <= j < i ==> Fold(args[j].name) != Fold(name)
  }

  /** The table scan of `ts_with_clauses_apply`: the first entry whose name matches, ignoring case. */
  function FindArg(args: seq<Arg>, name: string): (r: Option<nat>)
    ensures r.Some? ==> FirstMatchAt(args, name, r.value)
    ensures r.None? <==> forall j :: 0 <= j < |args| ==> Fold(args[j].name) != Fold(name)
  {
    FindArgFrom(args, name, 0)
  }

  function FindArgFrom(args: seq<Arg>, name: string, i: nat): (r: Option<nat>)
    requires i <= |args|
    ensures r.Some? ==> i <= r.value < |args| && Fold(args[r.value].name) == Fold(name)
    ensures r.Some? ==> forall j :: i <= j < r.value ==> Fold(args[j].name) != Fold(name)
    ensures r.None? <==> forall j :: i <= j < |args| ==> Fold(args[j].name) != Fold(name)
    decreases |args| - i
  {
    if i == |args| then None
    else if CaseEq(args[i].name, name) then Some(i)
    else FindArgFrom(args, name, i + 1)
  }

  /** The string an option carries: its value, or `true` when it has none. */
  function ValueString(e: DefElem): (r: string)
    ensures e.arg.Some? ==> r == e.arg.value
    ensures e.arg.None? ==> r == "true"
  {
    if e.arg.Some? then e.arg.value else "true"
  }

  /**
   * `ts_with_clause_deserialize_bool`: `true`/`on` and `false`/`off` in any
   * case; anything else is an error naming the BOOLEAN type.
   */
  function DeserializeBool(e: DefElem, value: string): (r: Result<bool, WithError>)
    ensures r == Success(true) <==> Fold(value) == "true" || Fold(value) == "on"
    ensures r == Success(false) <==> Fold(value) == "false" || Fold(value) == "off"
    ensures r.Failure? ==> r.error == InvalidValue(e.namespace, e.name, value, "BOOLEAN")
  {
    if CaseEq(value, "true") || CaseEq(value, "on") then Success(true)
    else if CaseEq(value, "false") || CaseEq(value, "off") then Success(false)
    else Failure(InvalidValue(e.namespace, e.name, value, "BOOLEAN"))
  }

  /** The deserializer call, or the raw string when the table has none. */
  function Deserialize(d: Deserializer, e: DefElem, value: string): (r: Result<Value, WithError>)
    ensures d.Raw? ==> r == Success(Text(value))
    ensures d.Unimplemented? ==> r == Failure(NotImplemented(e.namespace, e.name))
    ensures d.BoolValue? ==> (r.Success? <==> DeserializeBool(e, value).Success?)
    ensures d.BoolValue? && r.Success? ==> r.value == Bool(DeserializeBool(e, value).value)
  {
    match d
    case Raw => Success(Text(value))
    case Unimplemented => Failure(NotImplemented(e.namespace, e.name))
    case BoolValue =>
      (match DeserializeBool(e, value)
       case Success(b) => Success(Bool(b))
       case Failure(err) => Failure(err))
    case External(parse) =>
      (match parse(value)
       case Success(v) => Success(v)
       case Failure(msg) => Failure(ParseFailed(e.namespace, e.name, msg)))
  }

  /**
   * One option of `ts_with_clauses_apply`: find its argument, deserialize
   * its value and pass the argument's index, the option's name and the
   * datum to `onArg`, which may update the caller's state and reports
   * whether the value was accepted.
   */
  function ApplyOne<S>(e: DefElem, args: seq<Arg>, onArg: (nat, string, Value, S) -> (bool, S), state: S)
    : (r: Result<S, WithError>)
    ensures r == Failure(Unrecognized(e.namespace, e.name)) <==>
              forall j :: 0 <= j < |args| ==> Fold(args[j].name) != Fold(e.name)
    ensures forall i :: FirstMatchAt(args, e.name, i) ==>
              var v := Deserialize(args[i].deserializer, e, ValueString(e));
              && (v.Failure? ==> r == Failure(v.error))
              && (v.Success? && !onArg(i, e.name, v.value, state).0 ==> r == Failure(InvalidOrDuplicate(e.namespace, e.name)))
              && (v.Success? && onArg(i, e.name, v.value, state).0 ==> r == Success(onArg(i, e.name, v.value, state).1))
  {
    match FindArg(args, e.name)
    case None => Failure(Unrecognized(e.namespace, e.name))
    case Some(i) =>
      assert forall k :: FirstMatchAt(args, e.name, k) ==> k == i;
      var value := if e.arg.Some? then e.arg.value else "true";
      match Deserialize(args[i].deserializer, e, value)
      case Failure(err) => Failure(err)
      case Success(v) =>
        var (ok, state') := onArg(i, e.name, v, state);
        if !ok then Failure(InvalidOrDuplicate(e.namespace, e.name)) else Success(state')
  }

  /** Options belong to the namespace being applied (the source asserts this). */
  predicate AllIn(elems: seq<DefElem>, namespace: string) {
    forall k :: 0 <= k < |elems| ==> elems[k].namespace.Some? && CaseEq(elems[k].namespace.value, namespace)
  }

  /**
   * `ts_with_clauses_apply`: apply the options in order, threading the
   * callback's state and stopping at the first error.
   */
  function Apply<S>(elems: seq<DefElem>, namespace: string, args: seq<Arg>,
                    onArg: (nat, string, Value, S) -> (bool, S), state: S): (r: Result<S, WithError>)
    requires AllIn(elems, namespace)
    ensures elems == [] ==> r == Success(state)
    ensures |elems| == 1 ==> r == ApplyOne(elems[0], args, onArg, state)
    ensures r.Success? ==> forall k :: 0 <= k < |elems| ==> FindArg(args, elems[k].name).Some?
    ensures r.Failure? && r.error.Unrecognized? ==>
              exists k :: 0 <= k < |elems| && r.error == Unrecognized(elems[k].namespace, elems[k].name) &&
                          FindArg(args, elems[k].name).None?
    decreases |elems|
  {
    if elems == [] then Success(state)
    else
      assert forall k :: 0 < k < |elems| ==> elems[k] == elems[1..][k - 1];
      match ApplyOne(elems[0], args, onArg, state)
      case Failure(err) =>
        assert err.Unrecognized? ==> FindArg(args, elems[0].name).None?;
        Failure(err)
      case Success(s) => Apply(elems[1..], namespace, args, onArg, s)
  }

  /** Applying two runs of options is applying the first and then, from its state, the second. */
  lemma {:induction false} ApplyConcat<S>(a: seq<DefElem>, b: seq<DefElem>, namespace: string, args: seq<Arg>,
                                          onArg: (nat, string, Value, S) -> (bool, S), state: S)
    requires AllIn(a, namespace) && AllIn(b, namespace)
    ensures AllIn(a + b, namespace)
    ensures Apply(a + b, namespace, args, onArg, state) ==
              match Apply(a, namespace, args, onArg, state)
              case Failure(err) => Failure(err)
              case Success(s) => Apply(b, namespace, args, onArg, s)
  {
    assert forall k :: 0 <= k < |a + b| ==> (a + b)[k] == if k < |a| then a[k] else b[k - |a|];
    if a != [] {
      assert (a + b)[1..] == a[1..] + b;
      match ApplyOne(a[0], args, onArg, state)
      case Failure(_) =>
      case Success(s) => ApplyConcat(a[1..], b, namespace, args, onArg, s);
    } else {
      assert a + b == b;
    }
  }
}
