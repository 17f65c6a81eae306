/**
 * What `main` does once the tree is parsed: walk it with a fresh
 * `Processor`, print at most one of the three name lists (the first of
 * `--defined`, `--called`, `--remote` that is set), and render the graph
 * when `--dot` is given.
 */
module Report {
  import opened Wrappers
  import opened Ast
  import opened SeqUtil
  import opened CallTable
  import opened Attribution
  import opened Walker
  import opened Dot

  /** `calls.keys`. */
  function Defined(t: Table): seq<string>
  {
    t.keys
  }

  /** `calls.values`, in key order. */
  function Values(t: Table): seq<seq<string>>
  {
    seq(|t.keys|, i requires 0 <= i < |t.keys| => Lookup(t, t.keys[i]))
  }

  /** `calls.values.flatten.uniq`. */
  function Called(t: Table): seq<string>
  {
    Uniq(Concat(Values(t)))
  }

  /** `called - defined`, as written: `defined` is the keys, the methods that made a receiver-less call. */
  function Remote(t: Table): seq<string>
  {
    Minus(Called(t), Elements(Defined(t)))
  }

  /**
   * The remote list as the `--remote` help text describes it: the called
   * names that no `def` of the file defines, `called - @methods`.
   */
  function RemoteCorrected(t: Table, methods: set<string>): seq<string>
  {
    Minus(Called(t), methods)
  }

  /** The command-line switches that reach the core; the `--dot` path only says whether to render. */
  datatype Options = Options(defined: bool, called: bool, remote: bool, dot: Option<string>)

  /** The `if`/`elsif` chain: at most one list is printed, `--defined` first, then `--called`, then `--remote`. */
  function Printed(opts: Options, t: Table): seq<string>
  {
    if opts.defined then Defined(t)
    else if opts.called then Called(t)
    else if opts.remote then Remote(t)
    else []
  }

  /** The call table the walker builds from a whole tree. */
  function Build(root: Node): Table
  {
    AppendAll(Empty, Attribute(root, None).records)
  }

  /** `main` from the parsed tree on: the lines printed and, with `--dot`, the lines of the graph file. */
  method Run(opts: Options, root: Node) returns (stdout: seq<string>, dotFile: Option<seq<string>>)
    ensures stdout == Printed(opts, Build(root))
    ensures dotFile == if opts.dot.Some? then Some(Document(Build(root))) else None
  {
    var p := new Processor();
    p.Process(root);
    assert p.Calls() == Build(root);
    if opts.defined {
      stdout := p.keys;
    } else if opts.called {
      stdout := Called(p.Calls());
    } else if opts.remote {
      var called := Called(p.Calls());
      var defined := p.keys;
      stdout := Minus(called, Elements(defined));
    } else {
      stdout := [];
    }
    if opts.dot.Some? {
      var renderer := new DotRenderer(p, []);
      renderer.Render();
      assert [] + Document(p.Calls()) == Document(p.Calls());
      dotFile := Some(renderer.out);
    } else {
      dotFile := None;
    }
  }

  /** The called list holds, once each, exactly the targets recorded under any key. */
  lemma CalledMembers(t: Table)
    ensures NoDup(Called(t))
    ensures forall x :: x in Called(t) <==> exists k :: k in t.keys && x in Lookup(t, k)
  {
    var vs := Values(t);
    forall x ensures x in Called(t) <==> exists k :: k in t.keys && x in Lookup(t, k) {
      ConcatMembership(vs, x);
      if x in Concat(vs) {
        var i :| 0 <= i < |vs| && x in vs[i];
        assert t.keys[i] in t.keys && x in Lookup(t, t.keys[i]);
      }
      if k :| k in t.keys && x in Lookup(t, k) {
        var i :| 0 <= i < |t.keys| && t.keys[i] == k;
        assert x in vs[i];
      }
    }
  }

  /**
   * The called list keeps only first occurrences and orders them by where they
   * first occur when the lists are read in key order.
   */
  lemma CalledOrder(t: Table)
    ensures IsSubsequence(Called(t), Concat(Values(t)))
    ensures forall i, j :: 0 <= i < j < |Called(t)| ==>
              FirstIndex(Concat(Values(t)), Called(t)[i]) < FirstIndex(Concat(Values(t)), Called(t)[j])
  {
    UniqSubsequence(Concat(Values(t)));
    UniqFirstOccurrence(Concat(Values(t)));
  }

  /**
   * The remote list is the called list with every key removed, in the called
   * list's order: no repeats, disjoint from the defined list.
   */
  lemma RemoteSpec(t: Table)
    ensures NoDup(Remote(t))
    ensures forall x :: x in Remote(t) <==> x in Called(t) && x !in Defined(t)
    ensures IsSubsequence(Remote(t), Called(t))
  {
    CalledMembers(t);
    MinusProperties(Called(t), Elements(Defined(t)));
  }

  /**
   * Walking a tree from a fresh `Processor` builds `Build(root)`: the keys
   * are the callers in the order of their first recorded call, every key is
   * the name of a `def`, and each list holds that caller's recorded targets
   * in order, repeats kept.
   */
  lemma BuildSpec(root: Node)
    ensures CallTable.Valid(Build(root))
    ensures Defined(Build(root)) == Uniq(Callers(Attribute(root, None).records))
    ensures forall k :: k in Defined(Build(root)) ==> k in DefNames(root)
    ensures forall k :: Lookup(Build(root), k) == CalleesOf(Attribute(root, None).records, k)
  {
    var rs := Attribute(root, None).records;
    FromRecords(rs);
    CallersDefined(root, None);
    forall k | k in Defined(Build(root)) ensures k in DefNames(root) {
      assert k in Callers(rs);
      var i :| 0 <= i < |rs| && Callers(rs)[i] == k;
      assert rs[i] in rs;
    }
  }

  /** A tree with no `def` gives an empty table, empty lists and a graph with only its header and footer. */
  lemma NoDefinitions(root: Node, opts: Options)
    requires !HasDef(root)
    ensures Build(root) == Empty
    ensures Printed(opts, Build(root)) == []
    ensures Document(Build(root)) == HeaderLines + [FooterLine]
  {
    WalkWithoutDef(root, None);
    assert Attribute(root, None).records == [];
    EmptyTableOutputs(opts);
  }

  /** The outputs of the empty table. */
  lemma EmptyTableOutputs(opts: Options)
    ensures Printed(opts, Empty) == []
    ensures Document(Empty) == HeaderLines + [FooterLine]
  {
    assert Empty.keys == [];
    assert Values(Empty) == [];
    assert Concat([]) == [];
    assert Called(Empty) == [];
    assert Remote(Empty) == [];
    assert Statements(Empty, []) == [];
    assert Lines([]) == [];
  }

  // The remote list can name methods that are defined.

  /** `def a; b; end; def b; end`, as the parser would give it. */
  function TwoMethods(a: string, b: string): Node
  {
    Other([Def(a, [Other([]), Send(None, b, [])]), Def(b, [Other([])])])
  }

  lemma TwoMethodsRecords(a: string, b: string)
    ensures Attribute(TwoMethods(a, b), None).records == [Record(a, b)]
    ensures b in DefNames(TwoMethods(a, b))
  {
    var call := Send(None, b, []);
    var body := [Other([]), call];
    var da, db := Def(a, body), Def(b, [Other([])]);
    assert body[1..] == [call] && [call][1..] == [];
    assert !HasDef(Other([])) && !HasDef(call);
    assert !HasDefAll(body);
    assert [Other([])][1..] == [];
    FlatDef(a, body, None);
    assert TargetsAll([call]) == [b];
    assert TargetsAll(body) == [b];
    FlatDef(b, [Other([])], None);
    assert TargetsAll([Other([])]) == [];
    assert [da, db][1..] == [db] && [db][1..] == [];
    assert AttributeAll([db], None).records == [];
    assert DefNamesAll([db]) == DefNames(db);
  }

  lemma TwoMethodsTable(a: string, b: string)
    ensures Defined(Build(TwoMethods(a, b))) == [a]
    ensures Values(Build(TwoMethods(a, b))) == [[b]]
  {
    TwoMethodsRecords(a, b);
    var t := Table([a], map[a := [b]]);
    assert AppendAll(Empty, [Record(a, b)]) == t by {
      assert [Record(a, b)][1..] == [];
    }
    assert Values(t) == [[b]];
  }

  /**
   * As written, a method that makes no receiver-less call never becomes a
   * key: in `def a; b; end; def b; end`, `--defined` prints only `a` and
   * `--remote` prints `b`, although `b` is defined in the file.
   */
  lemma RemoteListsDefinedMethod(a: string, b: string)
    requires a != b
    ensures b in DefNames(TwoMethods(a, b))
    ensures Defined(Build(TwoMethods(a, b))) == [a]
    ensures Called(Build(TwoMethods(a, b))) == [b]
    ensures Remote(Build(TwoMethods(a, b))) == [b]
  {
    TwoMethodsRecords(a, b);
    TwoMethodsTable(a, b);
    assert Concat([[b]]) == [b] by {
      assert [[b]][..0] == [];
    }
    UniqOfNoDup([b]);
    assert Minus([b], Elements([a])) == [b] by {
      assert [b][..0] == [];
    }
  }

  /**
   * Subtracting `@methods` instead of the keys, no defined method is listed
   * as remote: a name is listed exactly when it is called and no `def` in
   * the tree has that name. On the two-method file, `b` is no longer listed.
   */
  lemma RemoteCorrectedSpec(root: Node)
    ensures forall x :: x in RemoteCorrected(Build(root), DefNames(root)) <==>
              x in Called(Build(root)) && x !in DefNames(root)
    ensures NoDup(RemoteCorrected(Build(root), DefNames(root)))
    ensures IsSubsequence(RemoteCorrected(Build(root), DefNames(root)), Called(Build(root)))
  {
    CalledMembers(Build(root));
    MinusProperties(Called(Build(root)), DefNames(root));
  }

  /** On the two-method file the corrected list is empty: `b` is defined. */
  lemma RemoteCorrectedExample(a: string, b: string)
    requires a != b
    ensures RemoteCorrected(Build(TwoMethods(a, b)), DefNames(TwoMethods(a, b))) == []
  {
    RemoteListsDefinedMethod(a, b);
    var d := DefNames(TwoMethods(a, b));
    assert RemoteCorrected(Build(TwoMethods(a, b)), d) == Minus([b], d);
    assert Minus([b], d) == [] by {
      assert [b][..0] == [];
    }
  }
}
