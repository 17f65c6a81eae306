/**
 * What the walker records, as a function of the tree: the calls it
 * attributes, in the order it appends them, and the value `@method` has when
 * the node is done. `@method` is one variable, not a stack: a `def` sets it
 * to its own name and clears it to `nil` when its body is done, whatever it
 * was before.
 */
module Attribution {
  import opened Wrappers
  import opened Ast
  import opened SeqUtil
  import opened CallTable

  /** The calls appended while walking a node, and `@method` afterwards. */
  datatype Trace = Trace(records: seq<Record>, after: Option<string>)

  /**
   * The record a call node adds for itself before its children are walked:
   * one exactly when a `def` is active and the call has no receiver.
   */
  function OwnRecord(recv: Option<Node>, name: string, active: Option<string>): seq<Record>
  {
    if active.Some? && recv.None? then [Record(active.value, name)] else []
  }

  /** Walking `n` with `@method` equal to `active`. */
  function Attribute(n: Node, active: Option<string>): (r: Trace)
    ensures r.after == active || r.after == None
    decreases n
  {
    match n
    case Def(name, kids) =>
      Trace(AttributeAll(kids, Some(name)).records, None)
    case Send(recv, name, args) =>
      var own := OwnRecord(recv, name, active);
      var inRecv := if recv.Some? then Attribute(recv.value, active) else Trace([], active);
      var inArgs := AttributeAll(args, inRecv.after);
      Trace(own + inRecv.records + inArgs.records, inArgs.after)
    case Other(kids) =>
      AttributeAll(kids, active)
  }

  /** Walking the nodes one after the other, `@method` carried from each to the next. */
  function AttributeAll(ns: seq<Node>, active: Option<string>): (r: Trace)
    ensures r.after == active || r.after == None
    decreases ns
  {
    if ns == [] then Trace([], active)
    else
      var first := Attribute(ns[0], active);
      var rest := AttributeAll(ns[1..], first.after);
      Trace(first.records + rest.records, rest.after)
  }

  /** Walking `p + [x]` is walking `p` and then `x`. */
  lemma {:induction false} AttributeAllSnoc(p: seq<Node>, x: Node, active: Option<string>)
    ensures var front := AttributeAll(p, active);
            var last := Attribute(x, front.after);
            AttributeAll(p + [x], active) == Trace(front.records + last.records, last.after)
    decreases p
  {
    if p == [] {
      assert [x][1..] == [];
    } else {
      assert (p + [x])[1..] == p[1..] + [x];
      AttributeAllSnoc(p[1..], x, Attribute(p[0], active).after);
    }
  }

  lemma DefNamesAllSnoc(p: seq<Node>, x: Node)
    ensures DefNamesAll(p + [x]) == DefNamesAll(p) + DefNames(x)
    decreases p
  {
    if p == [] {
      assert [x][1..] == [];
    } else {
      assert (p + [x])[1..] == p[1..] + [x];
      DefNamesAllSnoc(p[1..], x);
    }
  }

  /**
   * `@method` is `nil` after any node that contains a `def`, and unchanged
   * after one that does not.
   */
  lemma {:induction false} AfterWalk(n: Node, active: Option<string>)
    ensures Attribute(n, active).after == if HasDef(n) then None else active
    decreases n
  {
    match n
    case Def(_, _) =>
    case Send(recv, _, args) =>
      if recv.Some? { AfterWalk(recv.value, active); }
      var mid := if recv.Some? then Attribute(recv.value, active).after else active;
      AfterWalkAll(args, mid);
    case Other(kids) =>
      AfterWalkAll(kids, active);
  }

  lemma {:induction false} AfterWalkAll(ns: seq<Node>, active: Option<string>)
    ensures AttributeAll(ns, active).after == if HasDefAll(ns) then None else active
    decreases ns
  {
    if ns != [] {
      AfterWalk(ns[0], active);
      AfterWalkAll(ns[1..], Attribute(ns[0], active).after);
    }
  }

  /**
   * Every call is attributed either to the `def` active when the walk began
   * or to a `def` inside the node.
   */
  lemma {:induction false} CallersDefined(n: Node, active: Option<string>)
    ensures forall r :: r in Attribute(n, active).records ==>
              r.caller in DefNames(n) || active == Some(r.caller)
    decreases n
  {
    match n
    case Def(_, kids) =>
      CallersDefinedAll(kids, Some(n.name));
    case Send(recv, _, args) =>
      if recv.Some? { CallersDefined(recv.value, active); }
      var mid := if recv.Some? then Attribute(recv.value, active) else Trace([], active);
      CallersDefinedAll(args, mid.after);
    case Other(kids) =>
      CallersDefinedAll(kids, active);
  }

  lemma {:induction false} CallersDefinedAll(ns: seq<Node>, active: Option<string>)
    ensures forall r :: r in AttributeAll(ns, active).records ==>
              r.caller in DefNamesAll(ns) || active == Some(r.caller)
    decreases ns
  {
    if ns != [] {
      CallersDefined(ns[0], active);
      CallersDefinedAll(ns[1..], Attribute(ns[0], active).after);
    }
  }

  /**
   * At any depth, the callees recorded while walking a node are receiver-less
   * call names of that node, in pre-order: the walk only drops calls (those
   * made while no method is active), never adds or reorders them.
   */
  lemma {:induction false} CalleesAreTargets(n: Node, active: Option<string>)
    ensures IsSubsequence(Callees(Attribute(n, active).records), Targets(n))
    decreases n
  {
    match n
    case Def(_, kids) =>
      CalleesAreTargetsAll(kids, Some(n.name));
    case Send(recv, name, args) =>
      var own := OwnRecord(recv, name, active);
      var inRecv := if recv.Some? then Attribute(recv.value, active) else Trace([], active);
      var inArgs := AttributeAll(args, inRecv.after);
      var ownT: seq<string> := if recv.None? then [name] else [];
      var recvT := if recv.Some? then Targets(recv.value) else [];
      SubsequenceRefl(ownT);
      if recv.Some? {
        CalleesAreTargets(recv.value, active);
      }
      CalleesAreTargetsAll(args, inRecv.after);
      CalleesConcat(own, inRecv.records);
      CalleesConcat(own + inRecv.records, inArgs.records);
      SubsequenceConcat(Callees(own), ownT, Callees(inRecv.records), recvT);
      SubsequenceConcat(Callees(own) + Callees(inRecv.records), ownT + recvT,
                        Callees(inArgs.records), TargetsAll(args));
    case Other(kids) =>
      CalleesAreTargetsAll(kids, active);
  }

  lemma {:induction false} CalleesAreTargetsAll(ns: seq<Node>, active: Option<string>)
    ensures IsSubsequence(Callees(AttributeAll(ns, active).records), TargetsAll(ns))
    decreases ns
  {
    if ns != [] {
      var first := Attribute(ns[0], active);
      var rest := AttributeAll(ns[1..], first.after);
      CalleesAreTargets(ns[0], active);
      CalleesAreTargetsAll(ns[1..], first.after);
      CalleesConcat(first.records, rest.records);
      SubsequenceConcat(Callees(first.records), Targets(ns[0]), Callees(rest.records), TargetsAll(ns[1..]));
    }
  }

  /** A call with a receiver is never recorded: every recorded callee names a receiver-less call of the node. */
  lemma RecordedCalleesAreTargets(n: Node, active: Option<string>)
    ensures forall r :: r in Attribute(n, active).records ==> r.callee in Targets(n)
  {
    var rs := Attribute(n, active).records;
    CalleesAreTargets(n, active);
    SubsequenceMembers(Callees(rs), Targets(n));
    forall r | r in rs ensures r.callee in Targets(n) {
      var i :| 0 <= i < |rs| && rs[i] == r;
      assert Callees(rs)[i] == r.callee;
    }
  }

  /** Each target attributed to `m`. */
  function AttributedTo(m: string, targets: seq<string>): seq<Record>
  {
    seq(|targets|, i requires 0 <= i < |targets| => Record(m, targets[i]))
  }

  lemma AttributedToConcat(m: string, a: seq<string>, b: seq<string>)
    ensures AttributedTo(m, a + b) == AttributedTo(m, a) + AttributedTo(m, b)
  {
  }

  /**
   * In a part of the tree without a `def`, the walker records every
   * receiver-less call, in pre-order, under the active `def`, and nothing
   * else; outside any `def` it records nothing.
   */
  lemma {:induction false} WalkWithoutDef(n: Node, active: Option<string>)
    requires !HasDef(n)
    ensures Attribute(n, active).records
            == if active.Some? then AttributedTo(active.value, Targets(n)) else []
    decreases n
  {
    match n
    case Send(recv, name, args) =>
      if recv.Some? {
        WalkWithoutDef(recv.value, active);
        AfterWalk(recv.value, active);
      }
      WalkWithoutDefAll(args, active);
      if active.Some? {
        var m := active.value;
        AttributedToConcat(m, if recv.None? then [name] else [],
                           if recv.Some? then Targets(recv.value) else []);
        AttributedToConcat(m, (if recv.None? then [name] else [])
                              + (if recv.Some? then Targets(recv.value) else []),
                           TargetsAll(args));
      }
    case Other(kids) =>
      WalkWithoutDefAll(kids, active);
  }

  lemma {:induction false} WalkWithoutDefAll(ns: seq<Node>, active: Option<string>)
    requires !HasDefAll(ns)
    ensures AttributeAll(ns, active).records
            == if active.Some? then AttributedTo(active.value, TargetsAll(ns)) else []
    decreases ns
  {
    if ns != [] {
      WalkWithoutDef(ns[0], active);
      AfterWalk(ns[0], active);
      WalkWithoutDefAll(ns[1..], active);
      if active.Some? {
        AttributedToConcat(active.value, Targets(ns[0]), TargetsAll(ns[1..]));
      }
    }
  }

  /**
   * A `def` whose body holds no other `def` gets exactly its body's
   * receiver-less calls, in pre-order and with repeats, and leaves `@method`
   * cleared, whatever it was before.
   */
  lemma FlatDef(name: string, kids: seq<Node>, active: Option<string>)
    requires !HasDefAll(kids)
    ensures Attribute(Def(name, kids), active).records == AttributedTo(name, TargetsAll(kids))
    ensures Attribute(Def(name, kids), active).after == None
  {
    WalkWithoutDefAll(kids, Some(name));
  }

  /** Walking `p + q` is walking `p` and then `q`. */
  lemma {:induction false} AttributeAllConcat(p: seq<Node>, q: seq<Node>, active: Option<string>)
    ensures var front := AttributeAll(p, active);
            var back := AttributeAll(q, front.after);
            AttributeAll(p + q, active) == Trace(front.records + back.records, back.after)
    decreases p
  {
    if p == [] {
      assert p + q == q;
    } else {
      assert (p + q)[1..] == p[1..] + q;
      AttributeAllConcat(p[1..], q, Attribute(p[0], active).after);
    }
  }

  /**
   * Once a nested `def` has been walked, the enclosing `def` has lost its
   * context: the receiver-less calls that follow it in the enclosing body
   * (with no further `def` among them) are recorded under no name at all.
   */
  lemma NestedDefLosesContext(name: string, before: seq<Node>, after: seq<Node>, active: Option<string>)
    requires HasDefAll(before) && !HasDefAll(after)
    ensures Attribute(Def(name, before + after), active).records
            == AttributeAll(before, Some(name)).records
  {
    AttributeAllConcat(before, after, Some(name));
    AfterWalkAll(before, Some(name));
    WalkWithoutDefAll(after, None);
  }

  /** `def outer; def inner; y; end; x; end` records `inner -> y` and nothing for `x`. */
  lemma NestedDefExample()
    ensures var inner := Def("inner", [Send(None, "y", [])]);
            var outer := Def("outer", [inner, Send(None, "x", [])]);
            Attribute(outer, None).records == [Record("inner", "y")]
  {
    var inner := Def("inner", [Send(None, "y", [])]);
    var x := Send(None, "x", []);
    assert [inner, x] == [inner] + [x];
    NestedDefLosesContext("outer", [inner], [x], None);
    FlatDef("inner", [Send(None, "y", [])], Some("outer"));
    assert TargetsAll([Send(None, "y", [])]) == ["y"];
  }

  /** `def m; foo(bar()); end` records `m -> foo` before `m -> bar`. */
  lemma PreOrderExample()
    ensures var call := Send(None, "foo", [Send(None, "bar", [])]);
            Attribute(Def("m", [call]), None).records == [Record("m", "foo"), Record("m", "bar")]
  {
    var call := Send(None, "foo", [Send(None, "bar", [])]);
    FlatDef("m", [call], None);
    assert TargetsAll([Send(None, "bar", [])]) == ["bar"];
    assert TargetsAll([call]) == ["foo", "bar"];
  }
}
