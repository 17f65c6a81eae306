/**
 * `DotRenderer`: writes the call table as a Graphviz `digraph`, one
 * `[style=filled]` node line per key in insertion order, each followed by
 * one edge line per recorded target (repeats kept), skipping the targets in
 * `BLACKLIST`.
 */
module Dot {
  import opened Wrappers
  import opened SeqUtil
  import opened CallTable
  import opened Walker

  /** Call targets that never become edges. */
  const BLACKLIST: set<string> := {
    "log", "assert",
    "raise", "param", "gating_agent",
    "testing?", "__method__", "request",
    "configatron", "soft_assert"
  }

  const HeaderLines: seq<string> := ["digraph G {", " page=\"8.5,11;\""]
  const FooterLine: string := "}"

  /** What one line of the graph body says. */
  datatype Stmt = NodeDecl(name: string) | Edge(src: string, dst: string)

  /** `quote`: the name between double quotes, nothing escaped. */
  function Quote(name: string): string
  {
    "\"" + name + "\""
  }

  function Line(s: Stmt): string
  {
    match s
    case NodeDecl(n) => "  " + Quote(n) + " [style=filled];"
    case Edge(a, b) => "  " + Quote(a) + " -> " + Quote(b) + ";"
  }

  function Lines(ss: seq<Stmt>): seq<string>
  {
    seq(|ss|, i requires 0 <= i < |ss| => Line(ss[i]))
  }

  /** The targets that are not blacklisted, in order, repeats kept. */
  function Kept(dsts: seq<string>): seq<string>
    decreases |dsts|
  {
    if dsts == [] then []
    else Kept(dsts[..|dsts| - 1]) + (if dsts[|dsts| - 1] in BLACKLIST then [] else [dsts[|dsts| - 1]])
  }

  /** An edge from `src` to each of `dsts`, in order. */
  function EdgeList(src: string, dsts: seq<string>): seq<Stmt>
  {
    seq(|dsts|, i requires 0 <= i < |dsts| => Edge(src, dsts[i]))
  }

  /** One key's node and its edges. */
  function Block(src: string, dsts: seq<string>): seq<Stmt>
  {
    [NodeDecl(src)] + EdgeList(src, Kept(dsts))
  }

  /** The graph body for the keys `ks` of `t`, in the order given. */
  function Statements(t: Table, ks: seq<string>): seq<Stmt>
    decreases |ks|
  {
    if ks == [] then []
    else Statements(t, ks[..|ks| - 1]) + Block(ks[|ks| - 1], Lookup(t, ks[|ks| - 1]))
  }

  /** The whole document `render` writes for a table. */
  function Document(t: Table): seq<string>
  {
    HeaderLines + Lines(Statements(t, t.keys)) + [FooterLine]
  }

  class DotRenderer {
    const processor: Processor
    /** `@out`: the lines written so far. */
    var out: seq<string>

    constructor (processor: Processor, out: seq<string>)
      ensures this.processor == processor && this.out == out
    {
      this.processor := processor;
      this.out := out;
    }

    /** `render`: write the document for the processor's `@calls`, leaving the processor alone. */
    method Render()
      requires processor.Valid()
      modifies this
      ensures out == old(out) + Document(processor.Calls())
      ensures unchanged(processor)
    {
      ghost var t := processor.Calls();
      ghost var start := out;
      out := out + ["digraph G {"];
      out := out + [" page=\"8.5,11;\""];
      var keys, calls := processor.keys, processor.calls;
      assert t == Table(keys, calls) && CallTable.Valid(t);
      DocumentStart(start, t, keys);
      var i := 0;
      while i < |keys|
        invariant 0 <= i <= |keys|
        invariant out == start + HeaderLines + Lines(Statements(t, keys[..i]))
      {
        var src := keys[i];
        KeyListed(t, i);
        var dsts := calls[src];
        ghost var before := out;
        out := out + ["  " + Quote(src) + " [style=filled];"];
        EdgesStart(before, src, dsts);
        var j := 0;
        while j < |dsts|
          invariant 0 <= j <= |dsts|
          invariant out == before + Lines(Block(src, dsts[..j]))
        {
          var dst := dsts[j];
          EdgeStep(before, src, dsts, j);
          if !(dst in BLACKLIST) {
            out := out + ["  " + Quote(src) + " -> " + Quote(dst) + ";"];
          }
          j := j + 1;
        }
        TakeAll(dsts);
        StatementsStep(t, keys, i, start + HeaderLines, dsts);
        i := i + 1;
      }
      TakeAll(keys);
      out := out + ["}"];
      DocumentEnd(start, t);
    }
  }

  lemma KeyListed(t: Table, i: nat)
    requires CallTable.Valid(t) && i < |t.keys|
    ensures t.keys[i] in t.lists
  {
  }

  lemma EdgesStart(before: seq<string>, src: string, dsts: seq<string>)
    ensures before + ["  " + Quote(src) + " [style=filled];"] == before + Lines(Block(src, dsts[..0]))
  {
    assert Kept(dsts[..0]) == [];
  }

  lemma EdgeStep(before: seq<string>, src: string, dsts: seq<string>, j: nat)
    requires j < |dsts|
    ensures before + Lines(Block(src, dsts[..j + 1]))
            == before + Lines(Block(src, dsts[..j]))
               + (if dsts[j] in BLACKLIST then [] else ["  " + Quote(src) + " -> " + Quote(dsts[j]) + ";"])
  {
    assert dsts[..j + 1][..j] == dsts[..j];
    var k, k' := Kept(dsts[..j]), Kept(dsts[..j + 1]);
    assert k' == k + (if dsts[j] in BLACKLIST then [] else [dsts[j]]);
    assert Lines(Block(src, dsts[..j + 1]))
           == Lines(Block(src, dsts[..j])) + (if dsts[j] in BLACKLIST then [] else [Line(Edge(src, dsts[j]))]);
  }

  lemma LinesConcat(a: seq<Stmt>, b: seq<Stmt>)
    ensures Lines(a + b) == Lines(a) + Lines(b)
  {
  }

  lemma StatementsStep(t: Table, keys: seq<string>, i: nat, before: seq<string>, dsts: seq<string>)
    requires i < |keys| && dsts == Lookup(t, keys[i])
    ensures (before + Lines(Statements(t, keys[..i]))) + Lines(Block(keys[i], dsts))
            == before + Lines(Statements(t, keys[..i + 1]))
  {
    assert keys[..i + 1][..i] == keys[..i];
    assert Statements(t, keys[..i + 1]) == Statements(t, keys[..i]) + Block(keys[i], dsts);
    LinesConcat(Statements(t, keys[..i]), Block(keys[i], dsts));
  }

  lemma DocumentStart(start: seq<string>, t: Table, keys: seq<string>)
    ensures start + ["digraph G {"] + [" page=\"8.5,11;\""]
            == start + HeaderLines + Lines(Statements(t, keys[..0]))
  {
    assert keys[..0] == [];
  }

  lemma DocumentEnd(start: seq<string>, t: Table)
    ensures start + HeaderLines + Lines(Statements(t, t.keys)) + [FooterLine] == start + Document(t)
  {
    var body := Lines(Statements(t, t.keys));
    assert Document(t) == HeaderLines + body + [FooterLine];
    assert start + HeaderLines + body + [FooterLine] == start + (HeaderLines + body + [FooterLine]);
  }

  // Properties of the graph body.

  /** The names of the node declarations, in order. */
  function NodeNames(ss: seq<Stmt>): seq<string>
    decreases |ss|
  {
    if ss == [] then []
    else NodeNames(ss[..|ss| - 1]) + (if ss[|ss| - 1].NodeDecl? then [ss[|ss| - 1].name] else [])
  }

  /** The destinations of the edges leaving `src`, in order. */
  function EdgesFrom(ss: seq<Stmt>, src: string): seq<string>
    decreases |ss|
  {
    if ss == [] then []
    else
      var last := ss[|ss| - 1];
      EdgesFrom(ss[..|ss| - 1], src) + (if last.Edge? && last.src == src then [last.dst] else [])
  }

  /** Every edge comes right after its source's node line or after another edge from that source. */
  predicate Grouped(ss: seq<Stmt>)
  {
    forall i :: 0 <= i < |ss| && ss[i].Edge? ==>
      0 < i && (ss[i - 1] == NodeDecl(ss[i].src) || (ss[i - 1].Edge? && ss[i - 1].src == ss[i].src))
  }

  lemma {:induction false} NodeNamesConcat(a: seq<Stmt>, b: seq<Stmt>)
    ensures NodeNames(a + b) == NodeNames(a) + NodeNames(b)
    decreases |b|
  {
    if b == [] {
      assert a + b == a;
    } else {
      assert (a + b)[..|a + b| - 1] == a + b[..|b| - 1];
      NodeNamesConcat(a, b[..|b| - 1]);
    }
  }

  lemma {:induction false} EdgesFromConcat(a: seq<Stmt>, b: seq<Stmt>, src: string)
    ensures EdgesFrom(a + b, src) == EdgesFrom(a, src) + EdgesFrom(b, src)
    decreases |b|
  {
    if b == [] {
      assert a + b == a;
    } else {
      assert (a + b)[..|a + b| - 1] == a + b[..|b| - 1];
      EdgesFromConcat(a, b[..|b| - 1], src);
    }
  }

  /** A target is kept exactly when it is not blacklisted. */
  lemma {:induction false} KeptMembers(dsts: seq<string>)
    ensures forall x :: x in Kept(dsts) <==> x in dsts && x !in BLACKLIST
    decreases |dsts|
  {
    if dsts != [] {
      var p, x := dsts[..|dsts| - 1], dsts[|dsts| - 1];
      KeptMembers(p);
      InSnocAll(dsts);
    }
  }

  /** The kept targets are in recorded order. */
  lemma {:induction false} KeptSubsequence(dsts: seq<string>)
    ensures IsSubsequence(Kept(dsts), dsts)
    decreases |dsts|
  {
    if dsts != [] {
      var p, x := dsts[..|dsts| - 1], dsts[|dsts| - 1];
      SplitLast(dsts);
      KeptSubsequence(p);
      SubsequenceSnoc(Kept(p), p, x);
      if x in BLACKLIST {
        assert Kept(dsts) == Kept(p);
      } else {
        assert Kept(dsts) == Kept(p) + [x];
      }
    }
  }

  /** A target that is not blacklisted is kept as many times as it was recorded. */
  lemma {:induction false} KeptCounts(dsts: seq<string>, y: string)
    requires y !in BLACKLIST
    ensures multiset(Kept(dsts))[y] == multiset(dsts)[y]
    decreases |dsts|
  {
    if dsts != [] {
      var p, x := dsts[..|dsts| - 1], dsts[|dsts| - 1];
      SplitLast(dsts);
      KeptCounts(p, y);
      var tail := if x in BLACKLIST then [] else [x];
      assert multiset(dsts) == multiset(p) + multiset([x]);
      assert multiset(Kept(dsts)) == multiset(Kept(p)) + multiset(tail);
    }
  }

  /**
   * A target is kept exactly when it is not blacklisted, in order, and as
   * many times as it was recorded.
   */
  lemma KeptProperties(dsts: seq<string>)
    ensures forall x :: x in Kept(dsts) <==> x in dsts && x !in BLACKLIST
    ensures IsSubsequence(Kept(dsts), dsts)
    ensures forall x :: x !in BLACKLIST ==> multiset(Kept(dsts))[x] == multiset(dsts)[x]
  {
    KeptMembers(dsts);
    KeptSubsequence(dsts);
    forall x | x !in BLACKLIST ensures multiset(Kept(dsts))[x] == multiset(dsts)[x] {
      KeptCounts(dsts, x);
    }
  }

  /** The block of one key: its node line, then exactly its kept targets as edges. */
  lemma BlockGrouped(src: string, dsts: seq<string>)
    ensures Grouped(Block(src, dsts))
  {
    var b := Block(src, dsts);
    forall i | 0 <= i < |b| && b[i].Edge?
      ensures 0 < i && (b[i - 1] == NodeDecl(b[i].src) || (b[i - 1].Edge? && b[i - 1].src == b[i].src))
    {
      assert i > 0 && b[i].src == src;
    }
  }

  lemma {:induction false} BlockContents(src: string, dsts: seq<string>, k: string)
    ensures NodeNames(Block(src, dsts)) == [src]
    ensures EdgesFrom(Block(src, dsts), k) == if k == src then Kept(dsts) else []
  {
    var head, edges := [NodeDecl(src)], EdgeList(src, Kept(dsts));
    EdgeRun(src, Kept(dsts), k);
    NodeNamesConcat(head, edges);
    EdgesFromConcat(head, edges, k);
    NodeLine(src, k);
    assert NodeNames(head) + [] == NodeNames(head);
    assert [] + EdgesFrom(edges, k) == EdgesFrom(edges, k);
  }

  lemma NodeLine(src: string, k: string)
    ensures NodeNames([NodeDecl(src)]) == [src] && EdgesFrom([NodeDecl(src)], k) == []
  {
    assert [NodeDecl(src)][..0] == [];
  }

  lemma {:induction false} EdgeRun(src: string, kept: seq<string>, k: string)
    ensures NodeNames(EdgeList(src, kept)) == []
    ensures EdgesFrom(EdgeList(src, kept), k) == if k == src then kept else []
    decreases |kept|
  {
    if kept != [] {
      var p := kept[..|kept| - 1];
      EdgeRun(src, p, k);
      EdgeListSnoc(src, kept);
      SplitLast(kept);
    }
  }

  lemma EdgeListSnoc(src: string, kept: seq<string>)
    requires kept != []
    ensures var es := EdgeList(src, kept);
      |es| == |kept| && es[..|es| - 1] == EdgeList(src, kept[..|kept| - 1])
      && es[|es| - 1] == Edge(src, kept[|kept| - 1])
  {
    assert EdgeList(src, kept)[..|kept| - 1] == EdgeList(src, kept[..|kept| - 1]);
  }

  lemma GroupedConcat(a: seq<Stmt>, b: seq<Stmt>)
    requires Grouped(a) && Grouped(b)
    requires b != [] ==> b[0].NodeDecl?
    ensures Grouped(a + b)
  {
    forall i | 0 <= i < |a + b| && (a + b)[i].Edge?
      ensures 0 < i && ((a + b)[i - 1] == NodeDecl((a + b)[i].src)
                        || ((a + b)[i - 1].Edge? && (a + b)[i - 1].src == (a + b)[i].src))
    {
      if i >= |a| {
        assert (a + b)[i] == b[i - |a|];
        assert i - |a| > 0;
        assert (a + b)[i - 1] == b[i - 1 - |a|];
      }
    }
  }

  /** One node line per key, in key order. */
  lemma {:induction false} StatementsNodes(t: Table, ks: seq<string>)
    ensures NodeNames(Statements(t, ks)) == ks
    decreases |ks|
  {
    if ks != [] {
      var p, x := ks[..|ks| - 1], ks[|ks| - 1];
      var b := Block(x, Lookup(t, x));
      assert Statements(t, ks) == Statements(t, p) + b;
      StatementsNodes(t, p);
      BlockContents(x, Lookup(t, x), x);
      NodeNamesConcat(Statements(t, p), b);
      SplitLast(ks);
    }
  }

  /** Every edge sits under its source's node line. */
  lemma {:induction false} StatementsGrouped(t: Table, ks: seq<string>)
    ensures Grouped(Statements(t, ks))
    decreases |ks|
  {
    if ks != [] {
      var p, x := ks[..|ks| - 1], ks[|ks| - 1];
      var b := Block(x, Lookup(t, x));
      assert Statements(t, ks) == Statements(t, p) + b;
      StatementsGrouped(t, p);
      BlockGrouped(x, Lookup(t, x));
      GroupedConcat(Statements(t, p), b);
    }
  }

  /** For keys listed once each, the edges from `k` are its kept targets, or none if `k` is not a key. */
  lemma {:induction false} StatementsEdges(t: Table, ks: seq<string>, k: string)
    requires NoDup(ks)
    ensures EdgesFrom(Statements(t, ks), k) == if k in ks then Kept(Lookup(t, k)) else []
    decreases |ks|
  {
    if ks != [] {
      var p, x := ks[..|ks| - 1], ks[|ks| - 1];
      var b := Block(x, Lookup(t, x));
      NoDupSnoc(ks);
      InSnoc(ks, k);
      assert Statements(t, ks) == Statements(t, p) + b;
      StatementsEdges(t, p, k);
      BlockContents(x, Lookup(t, x), k);
      EdgesFromConcat(Statements(t, p), b, k);
      var e, eb := EdgesFrom(Statements(t, p), k), EdgesFrom(b, k);
      if k == x {
        assert e == [] && e + eb == eb;
      } else {
        assert eb == [] && e + eb == e;
      }
    }
  }

  /**
   * The body of the graph: exactly one node line per key, in key order; every
   * edge grouped under its source's node line; and for each key exactly its
   * recorded targets that are not blacklisted, in order, repeats kept.
   */
  lemma StatementsShape(t: Table, ks: seq<string>, k: string)
    requires NoDup(ks)
    ensures NodeNames(Statements(t, ks)) == ks
    ensures Grouped(Statements(t, ks))
    ensures EdgesFrom(Statements(t, ks), k) == if k in ks then Kept(Lookup(t, k)) else []
  {
    StatementsNodes(t, ks);
    StatementsGrouped(t, ks);
    StatementsEdges(t, ks, k);
  }

  /**
   * Every node line names a key, and every edge goes from a key to one of its
   * recorded targets that is not blacklisted.
   */
  lemma {:induction false} StatementsSound(t: Table, ks: seq<string>)
    ensures forall s :: s in Statements(t, ks) && s.NodeDecl? ==> s.name in ks
    ensures forall s :: s in Statements(t, ks) && s.Edge? ==>
              s.src in ks && s.dst in Lookup(t, s.src) && s.dst !in BLACKLIST
    decreases |ks|
  {
    if ks != [] {
      var p, x := ks[..|ks| - 1], ks[|ks| - 1];
      StatementsSound(t, p);
      BlockSound(x, Lookup(t, x));
      SplitLast(ks);
    }
  }

  /** One key's block: its own node line, then edges from it to its kept targets. */
  lemma BlockSound(src: string, dsts: seq<string>)
    ensures forall s :: s in Block(src, dsts) && s.NodeDecl? ==> s.name == src
    ensures forall s :: s in Block(src, dsts) && s.Edge? ==>
              s.src == src && s.dst in dsts && s.dst !in BLACKLIST
  {
    KeptMembers(dsts);
    forall s | s in Block(src, dsts)
      ensures s.NodeDecl? ==> s.name == src
      ensures s.Edge? ==> s.src == src && s.dst in Kept(dsts)
    {
      var i :| 0 <= i < |Block(src, dsts)| && Block(src, dsts)[i] == s;
      if i > 0 {
        EdgeListAt(src, Kept(dsts), i - 1);
      }
    }
  }

  lemma EdgeListAt(src: string, dsts: seq<string>, i: int)
    requires 0 <= i < |dsts|
    ensures |EdgeList(src, dsts)| == |dsts| && EdgeList(src, dsts)[i] == Edge(src, dsts[i])
  {
  }
}
