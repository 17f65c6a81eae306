/**
 * `Processor`: the depth-first walker that overrides `on_def` and `on_send`
 * and leaves every other node kind to the generic traversal, which visits
 * the children in order.
 */
module Walker {
  import opened Wrappers
  import opened Ast
  import opened SeqUtil
  import opened CallTable
  import opened Attribution

  class Processor {
    /** `@method`: the name of the `def` being walked, or `nil`. */
    var current: Option<string>
    /** `@methods`: every `def` name seen. */
    var methods: set<string>
    /** `@calls`, as its keys in insertion order and the map from key to targets. */
    var keys: seq<string>
    var calls: map<string, seq<string>>

    function Calls(): Table
      reads this
    {
      Table(keys, calls)
    }

    /**
     * The hash is well formed, every key of `@calls` is a defined name, and
     * so is `@method` when it is set.
     */
    ghost predicate Valid()
      reads this
    {
      && CallTable.Valid(Calls())
      && (forall k :: k in calls ==> k in methods)
      && (current.Some? ==> current.value in methods)
    }

    constructor ()
      ensures Valid()
      ensures current == None && methods == {} && Calls() == Empty
    {
      current := None;
      methods := {};
      keys := [];
      calls := map[];
    }

    /** `@calls[@method] << target`, the default block supplying `[]` for a new key. */
    method Record(target: string)
      requires Valid() && current.Some?
      modifies this
      ensures Valid()
      ensures current == old(current) && methods == old(methods)
      ensures Calls() == Append(old(Calls()), current.value, target)
    {
      var m := current.value;
      if m in calls {
        calls := calls[m := calls[m] + [target]];
      } else {
        keys := keys + [m];
        calls := calls[m := [target]];
      }
    }

    /** `process`: dispatch on the node kind. */
    method Process(n: Node)
      requires Valid()
      modifies this
      ensures Valid()
      ensures current == Attribute(n, old(current)).after
      ensures methods == old(methods) + DefNames(n)
      ensures Calls() == AppendAll(old(Calls()), Attribute(n, old(current)).records)
      decreases n, 1
    {
      match n
      case Def(_, _) => OnDef(n);
      case Send(_, _, _) => OnSend(n);
      case Other(kids) => ProcessAll(kids);
    }

    /** `on_def`: set `@method`, add it to `@methods`, walk the children, clear `@method`. */
    method OnDef(n: Node)
      requires Valid() && n.Def?
      modifies this
      ensures Valid()
      ensures current == None
      ensures methods == old(methods) + DefNames(n)
      ensures Calls() == AppendAll(old(Calls()), Attribute(n, old(current)).records)
      decreases n, 0
    {
      UnionAssoc(methods, {n.name}, DefNamesAll(n.kids));
      current := Some(n.name);
      methods := methods + {n.name};
      ProcessAll(n.kids);
      current := None;
    }

    /**
     * `on_send`: record the call under `@method` when one is set and the call
     * has no receiver, then walk the receiver and the arguments.
     */
    method OnSend(n: Node)
      requires Valid() && n.Send?
      modifies this
      ensures Valid()
      ensures current == Attribute(n, old(current)).after
      ensures methods == old(methods) + DefNames(n)
      ensures Calls() == AppendAll(old(Calls()), Attribute(n, old(current)).records)
      decreases n, 0
    {
      ghost var active, start, methods0 := current, Calls(), methods;
      ghost var own := OwnRecord(n.recv, n.name, active);
      ghost var inRecv := if n.recv.Some? then Attribute(n.recv.value, active) else Trace([], active);
      ghost var inArgs := AttributeAll(n.args, inRecv.after);
      ghost var recvNames := if n.recv.Some? then DefNames(n.recv.value) else {};
      assert Attribute(n, active) == Trace(own + inRecv.records + inArgs.records, inArgs.after);
      assert DefNames(n) == recvNames + DefNamesAll(n.args);
      if current.Some? && n.recv.None? {
        Record(n.name);
      }
      assert Calls() == AppendAll(start, own);
      if n.recv.Some? {
        Process(n.recv.value);
      }
      assert current == inRecv.after && methods == methods0 + recvNames;
      AppendAllSplit(start, own, inRecv.records);
      ProcessAll(n.args);
      AppendAllSplit(start, own + inRecv.records, inArgs.records);
      UnionAssoc(methods0, recvNames, DefNamesAll(n.args));
    }

    /** `process_all`: walk the nodes in order. */
    method ProcessAll(ns: seq<Node>)
      requires Valid()
      modifies this
      ensures Valid()
      ensures current == AttributeAll(ns, old(current)).after
      ensures methods == old(methods) + DefNamesAll(ns)
      ensures Calls() == AppendAll(old(Calls()), AttributeAll(ns, old(current)).records)
      decreases ns
    {
      ghost var active0, methods0, calls0 := current, methods, Calls();
      var i := 0;
      while i < |ns|
        invariant 0 <= i <= |ns|
        invariant Valid()
        invariant current == AttributeAll(ns[..i], active0).after
        invariant methods == methods0 + DefNamesAll(ns[..i])
        invariant Calls() == AppendAll(calls0, AttributeAll(ns[..i], active0).records)
      {
        WalkStep(ns, i, active0, calls0);
        DefNamesStep(ns, i);
        UnionAssoc(methods0, DefNamesAll(ns[..i]), DefNames(ns[i]));
        Process(ns[i]);
        i := i + 1;
      }
      TakeAll(ns);
    }
  }

  lemma UnionAssoc(a: set<string>, b: set<string>, c: set<string>)
    ensures a + b + c == a + (b + c)
  {
  }

  lemma DefNamesStep(ns: seq<Node>, i: nat)
    requires i < |ns|
    ensures DefNamesAll(ns[..i + 1]) == DefNamesAll(ns[..i]) + DefNames(ns[i])
  {
    assert ns[..i + 1] == ns[..i] + [ns[i]];
    DefNamesAllSnoc(ns[..i], ns[i]);
  }

  lemma WalkStep(ns: seq<Node>, i: nat, active: Option<string>, t: Table)
    requires i < |ns|
    ensures var done := AttributeAll(ns[..i], active);
            var step := Attribute(ns[i], done.after);
            && AttributeAll(ns[..i + 1], active) == Trace(done.records + step.records, step.after)
            && AppendAll(t, AttributeAll(ns[..i + 1], active).records)
               == AppendAll(AppendAll(t, done.records), step.records)
  {
    assert ns[..i + 1] == ns[..i] + [ns[i]];
    AttributeAllSnoc(ns[..i], ns[i], active);
    var done := AttributeAll(ns[..i], active);
    AppendAllSplit(t, done.records, Attribute(ns[i], done.after).records);
  }
}
