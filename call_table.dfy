/**
 * `@calls`: a Ruby `Hash` whose default block stores an empty array under a
 * missing key the first time the key is read. The walker only ever does
 * `@calls[m] << target`, so a key comes into existence together with its
 * first target. The hash is kept as its keys in insertion order plus a map.
 */
module CallTable {
  import opened SeqUtil

  /** One attributed call: `caller`'s body calls `callee` without a receiver. */
  datatype Record = Record(caller: string, callee: string)

  datatype Table = Table(keys: seq<string>, lists: map<string, seq<string>>)

  const Empty := Table([], map[])

  /**
   * The keys are listed once each, the listed keys are exactly the map's
   * domain, and no list is empty (a key is only created by an append).
   */
  ghost predicate Valid(t: Table)
  {
    && NoDup(t.keys)
    && (forall k :: k in t.lists <==> k in t.keys)
    && (forall k :: k in t.lists ==> t.lists[k] != [])
  }

  /** Reading `h[k]` through the default block: a missing key reads as `[]`. */
  function Lookup(t: Table, k: string): seq<string>
  {
    if k in t.lists then t.lists[k] else []
  }

  /** `h[k] << v`: the list under `k` gets `v` at its end, a new key goes last. */
  function Append(t: Table, k: string, v: string): (r: Table)
    ensures Valid(t) ==> Valid(r)
    ensures Lookup(r, k) == Lookup(t, k) + [v]
    ensures forall j :: j != k ==> Lookup(r, j) == Lookup(t, j)
    ensures |t.keys| <= |r.keys| && r.keys[..|t.keys|] == t.keys
  {
    if k in t.lists then Table(t.keys, t.lists[k := t.lists[k] + [v]])
    else Table(t.keys + [k], t.lists[k := [v]])
  }

  /** On a valid table, `h[k] << v` adds `k` as the last key exactly when it is new. */
  lemma AppendKeys(t: Table, k: string, v: string)
    requires Valid(t)
    ensures Append(t, k, v).keys == if k in t.keys then t.keys else t.keys + [k]
  {
  }

  /** The records appended one after the other. */
  function AppendAll(t: Table, rs: seq<Record>): Table
    decreases |rs|
  {
    if rs == [] then t else AppendAll(Append(t, rs[0].caller, rs[0].callee), rs[1..])
  }

  /** The callers of the records, in order. */
  function Callers(rs: seq<Record>): seq<string>
  {
    seq(|rs|, i requires 0 <= i < |rs| => rs[i].caller)
  }

  /** The callees of the records, in order. */
  function Callees(rs: seq<Record>): seq<string>
  {
    seq(|rs|, i requires 0 <= i < |rs| => rs[i].callee)
  }

  lemma CalleesConcat(a: seq<Record>, b: seq<Record>)
    ensures Callees(a + b) == Callees(a) + Callees(b)
  {
  }

  lemma CallersSnoc(rs: seq<Record>, r: Record)
    ensures Callers(rs + [r]) == Callers(rs) + [r.caller]
  {
  }

  /** The callees recorded for `k`, in order, repeats kept. */
  function CalleesOf(rs: seq<Record>, k: string): seq<string>
    decreases |rs|
  {
    if rs == [] then []
    else CalleesOf(rs[..|rs| - 1], k)
         + (if rs[|rs| - 1].caller == k then [rs[|rs| - 1].callee] else [])
  }

  lemma {:induction false} AppendAllSplit(t: Table, a: seq<Record>, b: seq<Record>)
    ensures AppendAll(t, a + b) == AppendAll(AppendAll(t, a), b)
    decreases |a|
  {
    if a == [] {
      assert a + b == b;
    } else {
      assert (a + b)[1..] == a[1..] + b;
      AppendAllSplit(Append(t, a[0].caller, a[0].callee), a[1..], b);
    }
  }

  lemma AppendAllSnoc(t: Table, rs: seq<Record>, r: Record)
    ensures AppendAll(t, rs + [r]) == Append(AppendAll(t, rs), r.caller, r.callee)
  {
    AppendAllSplit(t, rs, [r]);
  }

  /** Appending records keeps a table valid. */
  lemma {:induction false} AppendAllValid(t: Table, rs: seq<Record>)
    requires Valid(t)
    ensures Valid(AppendAll(t, rs))
    decreases |rs|
  {
    if rs != [] {
      AppendAllValid(Append(t, rs[0].caller, rs[0].callee), rs[1..]);
    }
  }

  /**
   * Appending records to a valid table makes its keys the old keys followed
   * by each new caller, placed at its first record.
   */
  lemma {:induction false} AppendAllKeys(t: Table, rs: seq<Record>)
    requires Valid(t)
    ensures AppendAll(t, rs).keys == Uniq(t.keys + Callers(rs))
    decreases |rs|
  {
    if rs == [] {
      UniqOfNoDup(t.keys);
      assert t.keys + Callers(rs) == t.keys;
    } else {
      var p, r := rs[..|rs| - 1], rs[|rs| - 1];
      assert rs == p + [r];
      AppendAllKeys(t, p);
      AppendAllValid(t, p);
      AppendAllSnoc(t, p, r);
      CallersSnoc(p, r);
      AppendAssoc(t.keys, Callers(p), [r.caller]);
      KeysStep(AppendAll(t, p), t.keys + Callers(p), r.caller, r.callee);
    }
  }

  /** One step of `AppendAllKeys`: an append extends the keys as `uniq` would. */
  lemma KeysStep(t: Table, before: seq<string>, k: string, v: string)
    requires Valid(t) && t.keys == Uniq(before)
    ensures Append(t, k, v).keys == Uniq(before + [k])
  {
    AppendKeys(t, k, v);
    UniqSnoc(before, k);
  }

  /** Appending records gives each key exactly the callees recorded for it, in order. */
  lemma {:induction false} AppendAllLookup(t: Table, rs: seq<Record>, k: string)
    ensures Lookup(AppendAll(t, rs), k) == Lookup(t, k) + CalleesOf(rs, k)
    decreases |rs|
  {
    if rs != [] {
      var p, r := rs[..|rs| - 1], rs[|rs| - 1];
      assert rs == p + [r];
      AppendAllLookup(t, p, k);
      AppendAllSnoc(t, p, r);
      AppendAssoc(Lookup(t, k), CalleesOf(p, k), if r.caller == k then [r.callee] else []);
    }
  }

  /** The table the walker builds from nothing is determined by the records alone. */
  lemma FromRecords(rs: seq<Record>)
    ensures Valid(AppendAll(Empty, rs))
    ensures AppendAll(Empty, rs).keys == Uniq(Callers(rs))
    ensures forall k :: Lookup(AppendAll(Empty, rs), k) == CalleesOf(rs, k)
  {
    AppendAllValid(Empty, rs);
    AppendAllKeys(Empty, rs);
    assert Empty.keys + Callers(rs) == Callers(rs);
    forall k ensures Lookup(AppendAll(Empty, rs), k) == CalleesOf(rs, k) {
      AppendAllLookup(Empty, rs, k);
    }
  }
}
