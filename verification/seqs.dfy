/** Sequence vocabulary shared by the scheduler model: duplicate-freedom,
    element sets, flattening of nested sequences and first positions. */
module Seqs {

  /** No element occurs twice in `s`. */
  predicate NoDup<T(==)>(s: seq<T>) {
    forall i, j :: 0 <= i < j < |s| ==> s[i] != s[j]
  }

  /** The set of elements of `s`. */
  function Elems<T>(s: seq<T>): set<T> {
    set x | x in s
  }

  /** The concatenation of all inner sequences, in order. */
  function Flatten<T>(ss: seq<seq<T>>): seq<T> {
    if ss == [] then [] else ss[0] + Flatten(ss[1..])
  }

  /** The position of the first occurrence of `x` in `s`. */
  function IndexOf<T(==)>(s: seq<T>, x: T): (i: nat)
    requires x in s
    ensures i < |s| && s[i] == x
    ensures forall j :: 0 <= j < i ==> s[j] != x
  {
    if s[0] == x then 0 else 1 + IndexOf(s[1..], x)
  }

  lemma {:induction false} FlattenMember<T>(ss: seq<seq<T>>, x: T)
    ensures x in Flatten(ss) <==> exists k :: 0 <= k < |ss| && x in ss[k]
  {
    if ss != [] {
      FlattenMember(ss[1..], x);
      if x in Flatten(ss[1..]) {
        var k :| 0 <= k < |ss[1..]| && x in ss[1..][k];
        assert x in ss[k + 1];
      }
      if exists k :: 0 <= k < |ss| && x in ss[k] {
        var k :| 0 <= k < |ss| && x in ss[k];
        if k > 0 {
          assert x in ss[1..][k - 1];
        }
      }
    }
  }

  /** In a duplicate-free flattening, the inner sequences are duplicate-free
      and no element is shared by two of them. */
  lemma {:induction false} NoDupFlatten<T>(ss: seq<seq<T>>)
    requires NoDup(Flatten(ss))
    ensures forall k :: 0 <= k < |ss| ==> NoDup(ss[k])
    ensures forall k, l, x :: 0 <= k < l < |ss| && x in ss[k] ==> x !in ss[l]
  {
    if ss != [] {
      var f := Flatten(ss);
      assert f == ss[0] + Flatten(ss[1..]);
      assert NoDup(Flatten(ss[1..])) by {
        forall i, j | 0 <= i < j < |Flatten(ss[1..])|
          ensures Flatten(ss[1..])[i] != Flatten(ss[1..])[j]
        {
          assert Flatten(ss[1..])[i] == f[|ss[0]| + i];
          assert Flatten(ss[1..])[j] == f[|ss[0]| + j];
        }
      }
      NoDupFlatten(ss[1..]);
      assert NoDup(ss[0]) by {
        forall i, j | 0 <= i < j < |ss[0]|
          ensures ss[0][i] != ss[0][j]
        {
          assert ss[0][i] == f[i] && ss[0][j] == f[j];
        }
      }
      forall k, l, x | 0 <= k < l < |ss| && x in ss[k]
        ensures x !in ss[l]
      {
        if k == 0 {
          var i :| 0 <= i < |ss[0]| && ss[0][i] == x;
          forall j | 0 <= j < |Flatten(ss[1..])|
            ensures Flatten(ss[1..])[j] != x
          {
            assert f[i] == x && f[|ss[0]| + j] == Flatten(ss[1..])[j];
          }
          FlattenMember(ss[1..], x);
          assert ss[1..][l - 1] == ss[l];
        } else {
          assert ss[k] == ss[1..][k - 1] && ss[l] == ss[1..][l - 1];
        }
      }
    }
  }

  /** In a duplicate-free sequence every element occurs exactly once. */
  lemma {:induction false} NoDupCount<T>(s: seq<T>, y: T)
    requires NoDup(s)
    ensures multiset(s)[y] == if y in s then 1 else 0
  {
    if s != [] {
      assert s == [s[0]] + s[1..];
      assert NoDup(s[1..]) by {
        forall p, q | 0 <= p < q < |s[1..]| ensures s[1..][p] != s[1..][q] {
          assert s[1..][p] == s[p + 1] && s[1..][q] == s[q + 1];
        }
      }
      NoDupCount(s[1..], y);
      if y == s[0] {
        forall p | 0 <= p < |s[1..]| ensures s[1..][p] != y {
          assert s[1..][p] == s[p + 1];
        }
      }
    }
  }

  /** Two duplicate-free sequences with the same elements are permutations of
      each other. */
  lemma NoDupSameElemsMultiset<T>(a: seq<T>, b: seq<T>)
    requires NoDup(a) && NoDup(b)
    requires Elems(a) == Elems(b)
    ensures multiset(a) == multiset(b)
  {
    forall y ensures multiset(a)[y] == multiset(b)[y] {
      NoDupCount(a, y);
      NoDupCount(b, y);
      assert y in a <==> y in Elems(a);
      assert y in b <==> y in Elems(b);
    }
  }

  /** Concatenating two duplicate-free sequences with no common element. */
  lemma ConcatNoDup<T>(a: seq<T>, b: seq<T>)
    requires NoDup(a) && NoDup(b)
    requires forall x :: x in a ==> x !in b
    ensures NoDup(a + b)
  {
    var e := a + b;
    forall i, j | 0 <= i < j < |e| ensures e[i] != e[j] {
      if i < |a| && j >= |a| {
        assert e[i] == a[i] && e[j] == b[j - |a|];
        assert a[i] in a && b[j - |a|] in b;
      } else if i >= |a| {
        assert e[i] == b[i - |a|] && e[j] == b[j - |a|];
      } else {
        assert e[i] == a[i] && e[j] == a[j];
      }
    }
  }

  lemma {:induction false} SubsetCard<T>(a: set<T>, b: set<T>)
    requires a <= b
    ensures |a| <= |b|
    decreases |a|
  {
    if a != {} {
      var x :| x in a;
      SubsetCard(a - {x}, b - {x});
    }
  }

  /** A sequence is empty exactly when nothing is in it. */
  lemma EmptyIffNoMembers<T>(s: seq<T>)
    ensures s == [] <==> forall y :: y !in s
  {
    if s != [] {
      assert s[0] in s;
    }
  }

  /** First positions in a concatenation. */
  lemma {:induction false} IndexOfConcat<T>(a: seq<T>, b: seq<T>, x: T)
    requires x in a + b
    ensures x in a ==> IndexOf(a + b, x) == IndexOf(a, x)
    ensures x !in a ==> x in b && IndexOf(a + b, x) == |a| + IndexOf(b, x)
    decreases |a|
  {
    if a != [] {
      assert (a + b)[0] == a[0] && (a + b)[1..] == a[1..] + b;
      if a[0] != x {
        IndexOfConcat(a[1..], b, x);
      }
    } else {
      assert a + b == b;
    }
  }
}
