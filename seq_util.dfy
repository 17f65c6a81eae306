/**
 * The two Ruby `Array` operations the reports use: `uniq`, which keeps the
 * first occurrence of each element, and `-`, which drops every element of
 * the left array that occurs in the right one.
 */
module SeqUtil {

  /** No element occurs twice. */
  predicate NoDup(s: seq<string>)
  {
    forall i, j :: 0 <= i < j < |s| ==> s[i] != s[j]
  }

  /** The position of the first occurrence of `x` in `s`, or `|s|` if there is none. */
  function FirstIndex(s: seq<string>, x: string): (r: nat)
    ensures r <= |s|
    ensures r < |s| <==> x in s
    ensures r < |s| ==> s[r] == x
    ensures forall i :: 0 <= i < r ==> s[i] != x
  {
    if s == [] then 0 else if s[0] == x then 0 else 1 + FirstIndex(s[1..], x)
  }

  /** `a` can be obtained from `b` by deleting elements. */
  predicate IsSubsequence(a: seq<string>, b: seq<string>)
    decreases |b|
  {
    a == []
    || (b != []
        && ((a[|a| - 1] == b[|b| - 1] && IsSubsequence(a[..|a| - 1], b[..|b| - 1]))
            || IsSubsequence(a, b[..|b| - 1])))
  }

  /** Ruby's `Array#uniq`: the elements of `s`, each kept at its first occurrence. */
  function Uniq(s: seq<string>): (r: seq<string>)
    ensures NoDup(r)
    ensures forall x :: x in r <==> x in s
    decreases |s|
  {
    if s == [] then []
    else
      var u := Uniq(s[..|s| - 1]);
      if s[|s| - 1] in u then u else u + [s[|s| - 1]]
  }

  /** The elements of an array, as a set: what `Array#-` tests membership against. */
  function Elements(s: seq<string>): set<string>
  {
    set x | x in s
  }

  /**
   * Ruby's `Array#-` with the right-hand array given by its elements: the
   * elements of `a` that are not in `b`, in their order, repeats kept.
   */
  function Minus(a: seq<string>, b: set<string>): seq<string>
    decreases |a|
  {
    if a == [] then []
    else Minus(a[..|a| - 1], b) + (if a[|a| - 1] in b then [] else [a[|a| - 1]])
  }

  /** Ruby's `Array#flatten` on an array of arrays of names. */
  function Concat(ss: seq<seq<string>>): seq<string>
    decreases |ss|
  {
    if ss == [] then [] else Concat(ss[..|ss| - 1]) + ss[|ss| - 1]
  }

  /** Dropping the last element of a sequence without repeats leaves one without it. */
  lemma NoDupSnoc(s: seq<string>)
    requires s != [] && NoDup(s)
    ensures NoDup(s[..|s| - 1]) && s[|s| - 1] !in s[..|s| - 1]
  {
  }

  /** Membership in a non-empty sequence: in its front or its last element. */
  lemma InSnoc(s: seq<string>, y: string)
    requires s != []
    ensures y in s <==> y in s[..|s| - 1] || y == s[|s| - 1]
  {
    assert s == s[..|s| - 1] + [s[|s| - 1]];
  }

  /** Membership in a non-empty sequence, for every element. */
  lemma InSnocAll(s: seq<string>)
    requires s != []
    ensures forall y :: y in s <==> y in s[..|s| - 1] || y == s[|s| - 1]
  {
    assert s == s[..|s| - 1] + [s[|s| - 1]];
  }

  lemma SplitLast(s: seq<string>)
    requires s != []
    ensures s == s[..|s| - 1] + [s[|s| - 1]]
  {
  }

  lemma TakeAll<T>(s: seq<T>)
    ensures s[..|s|] == s
  {
  }

  lemma AppendAssoc(a: seq<string>, b: seq<string>, c: seq<string>)
    ensures a + (b + c) == (a + b) + c
  {
  }

  lemma {:induction false} SubsequenceSnoc(a: seq<string>, b: seq<string>, x: string)
    requires IsSubsequence(a, b)
    ensures IsSubsequence(a, b + [x])
    ensures IsSubsequence(a + [x], b + [x])
  {
    assert (b + [x])[..|b|] == b;
    assert (a + [x])[..|a|] == a;
  }

  /** A sequence is a subsequence of itself. */
  lemma {:induction false} SubsequenceRefl(a: seq<string>)
    ensures IsSubsequence(a, a)
    decreases |a|
  {
    if a != [] {
      SubsequenceRefl(a[..|a| - 1]);
    }
  }

  /** The first occurrence of an element of `s` does not move when something is appended. */
  lemma FirstIndexSnoc(s: seq<string>, x: string, y: string)
    requires y in s
    ensures FirstIndex(s + [x], y) == FirstIndex(s, y)
  {
    var i, j := FirstIndex(s + [x], y), FirstIndex(s, y);
    assert (s + [x])[j] == y;
    assert i <= j;
  }

  lemma UniqSnoc(s: seq<string>, x: string)
    ensures Uniq(s + [x]) == if x in Uniq(s) then Uniq(s) else Uniq(s) + [x]
  {
    assert (s + [x])[..|s|] == s;
  }

  /** A subsequence stays one when the longer sequence grows at its end. */
  lemma {:induction false} SubsequenceExtend(a: seq<string>, b: seq<string>, d: seq<string>)
    requires IsSubsequence(a, b)
    ensures IsSubsequence(a, b + d)
    decreases |d|
  {
    if d == [] {
      assert b + d == b;
    } else {
      var d', y := d[..|d| - 1], d[|d| - 1];
      SubsequenceExtend(a, b, d');
      SubsequenceSnoc(a, b + d', y);
      AppendAssoc(b, d', [y]);
      SplitLast(d);
    }
  }

  /** Subsequences of two sequences concatenate to a subsequence of their concatenation. */
  lemma {:induction false} SubsequenceConcat(a: seq<string>, b: seq<string>, c: seq<string>, d: seq<string>)
    requires IsSubsequence(a, b) && IsSubsequence(c, d)
    ensures IsSubsequence(a + c, b + d)
    decreases |d|
  {
    if c == [] {
      assert a + c == a;
      SubsequenceExtend(a, b, d);
    } else {
      var c', x := c[..|c| - 1], c[|c| - 1];
      var d', y := d[..|d| - 1], d[|d| - 1];
      SplitLast(c);
      SplitLast(d);
      AppendAssoc(b, d', [y]);
      if x == y && IsSubsequence(c', d') {
        SubsequenceConcat(a, b, c', d');
        SubsequenceSnoc(a + c', b + d', x);
        AppendAssoc(a, c', [x]);
      } else {
        SubsequenceConcat(a, b, c, d');
        SubsequenceSnoc(a + c, b + d', y);
      }
    }
  }

  /** Every element of a subsequence is an element of the longer sequence. */
  lemma {:induction false} SubsequenceMembers(a: seq<string>, b: seq<string>)
    requires IsSubsequence(a, b)
    ensures forall x :: x in a ==> x in b
    decreases |b|
  {
    if a != [] {
      var a', x := a[..|a| - 1], a[|a| - 1];
      var b', y := b[..|b| - 1], b[|b| - 1];
      InSnocAll(a);
      InSnocAll(b);
      if x == y && IsSubsequence(a', b') {
        SubsequenceMembers(a', b');
      } else {
        SubsequenceMembers(a, b');
      }
    }
  }

  /** `Uniq` only drops elements: it is a subsequence of its input. */
  lemma {:induction false} UniqSubsequence(s: seq<string>)
    ensures IsSubsequence(Uniq(s), s)
    decreases |s|
  {
    if s != [] {
      var p, x := s[..|s| - 1], s[|s| - 1];
      assert s == p + [x];
      UniqSubsequence(p);
      assert Uniq(s) == if x in Uniq(p) then Uniq(p) else Uniq(p) + [x];
      SubsequenceSnoc(Uniq(p), p, x);
    }
  }

  /** `Uniq` keeps each element at its first occurrence: its elements are ordered by where they first occur. */
  lemma {:induction false} UniqFirstOccurrence(s: seq<string>)
    ensures forall i, j :: 0 <= i < j < |Uniq(s)| ==>
              FirstIndex(s, Uniq(s)[i]) < FirstIndex(s, Uniq(s)[j])
    decreases |s|
  {
    if s != [] {
      var p, x := s[..|s| - 1], s[|s| - 1];
      assert s == p + [x];
      UniqFirstOccurrence(p);
      var u := Uniq(p);
      assert Uniq(s) == if x in u then u else u + [x];
      forall i, j | 0 <= i < j < |Uniq(s)|
        ensures FirstIndex(s, Uniq(s)[i]) < FirstIndex(s, Uniq(s)[j])
      {
        assert Uniq(s)[i] == u[i];
        FirstIndexSnoc(p, x, u[i]);
        if j < |u| {
          assert Uniq(s)[j] == u[j];
          FirstIndexSnoc(p, x, u[j]);
        } else {
          assert Uniq(s)[j] == x && x !in p;
          assert FirstIndex(s, x) == |p|;
        }
      }
    }
  }

  /** `Uniq` leaves a sequence without repeats as it is. */
  lemma {:induction false} UniqOfNoDup(s: seq<string>)
    requires NoDup(s)
    ensures Uniq(s) == s
    decreases |s|
  {
    if s != [] {
      UniqOfNoDup(s[..|s| - 1]);
      assert s[|s| - 1] !in s[..|s| - 1];
      assert s == s[..|s| - 1] + [s[|s| - 1]];
    }
  }

  /** An element is in `a - b` exactly when it is in `a` and not in `b`. */
  lemma {:induction false} MinusMembers(a: seq<string>, b: set<string>)
    ensures forall x :: x in Minus(a, b) <==> x in a && x !in b
    decreases |a|
  {
    if a != [] {
      var p, x := a[..|a| - 1], a[|a| - 1];
      MinusMembers(p, b);
      assert forall y :: y in a <==> y in p || y == x by {
        assert a == p + [x];
      }
    }
  }

  /** `a - b` keeps the order of `a`. */
  lemma {:induction false} MinusSubsequence(a: seq<string>, b: set<string>)
    ensures IsSubsequence(Minus(a, b), a)
    decreases |a|
  {
    if a != [] {
      var p, x := a[..|a| - 1], a[|a| - 1];
      assert a == p + [x];
      MinusSubsequence(p, b);
      SubsequenceSnoc(Minus(p, b), p, x);
      if x in b {
        assert Minus(a, b) == Minus(p, b);
      } else {
        assert Minus(a, b) == Minus(p, b) + [x];
      }
    }
  }

  /** `a - b` has no repeats when `a` has none. */
  lemma {:induction false} MinusNoDup(a: seq<string>, b: set<string>)
    requires NoDup(a)
    ensures NoDup(Minus(a, b))
    decreases |a|
  {
    if a != [] {
      var p, x := a[..|a| - 1], a[|a| - 1];
      NoDupSnoc(a);
      MinusNoDup(p, b);
      MinusMembers(p, b);
      if x !in b {
        NoDupAppend(Minus(p, b), x);
      }
    }
  }

  lemma NoDupAppend(r: seq<string>, x: string)
    requires NoDup(r) && x !in r
    ensures NoDup(r + [x])
  {
  }

  /**
   * `Minus(a, b)` holds exactly the elements of `a` that are not in `b`,
   * keeps the relative order of `a`, and has no repeats when `a` has none.
   */
  lemma MinusProperties(a: seq<string>, b: set<string>)
    ensures forall x :: x in Minus(a, b) <==> x in a && x !in b
    ensures IsSubsequence(Minus(a, b), a)
    ensures NoDup(a) ==> NoDup(Minus(a, b))
  {
    MinusMembers(a, b);
    MinusSubsequence(a, b);
    if NoDup(a) {
      MinusNoDup(a, b);
    }
  }

  /** An element is in a flattened sequence exactly when it is in one of the parts. */
  lemma {:induction false} ConcatMembership(ss: seq<seq<string>>, x: string)
    ensures x in Concat(ss) <==> exists i :: 0 <= i < |ss| && x in ss[i]
    decreases |ss|
  {
    if ss != [] {
      var p := ss[..|ss| - 1];
      ConcatMembership(p, x);
      if x in Concat(p) {
        var i :| 0 <= i < |p| && x in p[i];
        assert x in ss[i];
      }
      if i :| 0 <= i < |ss| && x in ss[i] {
        if i < |p| { assert x in p[i]; }
      }
    }
  }
}
