/** The index pairs both scans visit: `for (i = 0; i < n; i++) for (j = i + 1;
    j < n; j++)`, i.e. every `i < j < n` once, in lexicographic order. */
module Pairs {

  type IndexPair = (nat, nat)

  /** The inner loop for a fixed `i`, from `j` on. */
  function Row(n: nat, i: nat, j: nat): (r: seq<IndexPair>)
    ensures forall p :: p in r <==> p.0 == i && j <= p.1 < n
    decreases n - j
  {
    if j >= n then [] else [(i, j)] + Row(n, i, j + 1)
  }

  /** The outer loop from `i` on. */
  function RowsFrom(n: nat, i: nat): (r: seq<IndexPair>)
    ensures forall p :: p in r <==> i <= p.0 < p.1 < n
    decreases n - i
  {
    if i >= n then [] else Row(n, i, i + 1) + RowsFrom(n, i + 1)
  }

  /** Every pair of positions `i < j` of an `n`-element array. */
  function AllPairs(n: nat): (r: seq<IndexPair>)
    ensures forall p :: p in r <==> p.0 < p.1 < n
  {
    RowsFrom(n, 0)
  }

  /** Lexicographic order on index pairs. */
  predicate LexLess(p: IndexPair, q: IndexPair) {
    p.0 < q.0 || (p.0 == q.0 && p.1 < q.1)
  }

  ghost predicate LexSorted(s: seq<IndexPair>) {
    forall a, b :: 0 <= a < b < |s| ==> LexLess(s[a], s[b])
  }

  lemma {:induction false} RowSorted(n: nat, i: nat, j: nat)
    ensures LexSorted(Row(n, i, j))
    decreases n - j
  {
    if j < n {
      RowSorted(n, i, j + 1);
      var r := Row(n, i, j);
      forall a, b | 0 <= a < b < |r| ensures LexLess(r[a], r[b]) {
        assert r[b] == Row(n, i, j + 1)[b - 1];
        assert r[b] in Row(n, i, j + 1);
        if a > 0 {
          assert r[a] == Row(n, i, j + 1)[a - 1];
        }
      }
    }
  }

  lemma {:induction false} RowsFromSorted(n: nat, i: nat)
    ensures LexSorted(RowsFrom(n, i))
    decreases n - i
  {
    if i < n {
      RowSorted(n, i, i + 1);
      RowsFromSorted(n, i + 1);
      var row := Row(n, i, i + 1);
      var rest := RowsFrom(n, i + 1);
      var r := row + rest;
      forall a, b | 0 <= a < b < |r| ensures LexLess(r[a], r[b]) {
        if b < |row| {
          assert r[a] == row[a] && r[b] == row[b];
        } else if a >= |row| {
          assert r[a] == rest[a - |row|] && r[b] == rest[b - |row|];
        } else {
          assert r[a] == row[a] && row[a] in row;
          assert r[b] == rest[b - |row|] && rest[b - |row|] in rest;
        }
      }
    }
  }

  /** The scans visit index pairs in strictly increasing lexicographic order,
      so no pair is visited twice. */
  lemma AllPairsSorted(n: nat)
    ensures LexSorted(AllPairs(n))
  {
    RowsFromSorted(n, 0);
  }

  lemma {:induction false} RowsFromLength(n: nat, i: nat)
    requires i <= n
    ensures 2 * |RowsFrom(n, i)| == (n - i) * (n - i - 1)
    decreases n - i
  {
    if i < n {
      RowsFromLength(n, i + 1);
      RowLength(n, i, i + 1);
      var k := n - i - 1;
      assert |RowsFrom(n, i)| == k + |RowsFrom(n, i + 1)|;
      assert 2 * |RowsFrom(n, i + 1)| == k * (k - 1);
      SquareStep(k);
    }
  }

  lemma SquareStep(k: int)
    ensures (k + 1) * k == 2 * k + k * (k - 1)
  {
  }

  lemma {:induction false} RowLength(n: nat, i: nat, j: nat)
    requires j <= n
    ensures |Row(n, i, j)| == n - j
    decreases n - j
  {
    if j < n {
      RowLength(n, i, j + 1);
    }
  }

  /** An `n`-element array has n(n-1)/2 pairs `i < j`. */
  lemma AllPairsLength(n: nat)
    ensures 2 * |AllPairs(n)| == n * (n - 1)
  {
    RowsFromLength(n, 0);
  }
}
