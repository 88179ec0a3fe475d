/** The 5x5 piece mask shared by the board and the pieces.
    A mask is a row-major sequence of 25 integers: cell (x, y) lives at index x + y * 5,
    0 means empty and a positive value is the piece's fill id. */
module Mask {

  /** The cell at column x, row y of a 5x5 mask. */
  function At(mask: seq<int>, x: int, y: int): int
    requires |mask| == 25 && 0 <= x < 5 && 0 <= y < 5
  {
    mask[x + y * 5]
  }

  /** Index x + y * 5 of a mask splits back into its column x and row y. */
  lemma IndexSplit(x: int, y: int)
    requires 0 <= x < 5 && 0 <= y < 5
    ensures (x + y * 5) / 5 == y && (x + y * 5) % 5 == x
  {
  }

  /** Number of occupied (nonzero) entries of a cell sequence: all entries minus the zeros. */
  function Filled(s: seq<int>): int
  {
    |s| - multiset(s)[0]
  }

  /** A sequence never holds more zeros than entries, so Filled is a natural number. */
  lemma {:induction false} ZerosAtMost(s: seq<int>)
    ensures multiset(s)[0] <= |s|
    ensures 0 <= Filled(s) <= |s|
  {
    if s != [] {
      ZerosAtMost(s[1..]);
      assert s == [s[0]] + s[1..];
    }
  }

  /** A sequence of zeros has no occupied entry. */
  lemma {:induction false} AllZeroUnfilled(s: seq<int>)
    requires forall i :: 0 <= i < |s| ==> s[i] == 0
    ensures Filled(s) == 0
  {
    if s != [] {
      assert s == [s[0]] + s[1..];
      AllZeroUnfilled(s[1..]);
    }
  }

  /** Occupied entries of a concatenation add up. */
  lemma FilledAppend(a: seq<int>, b: seq<int>)
    ensures Filled(a + b) == Filled(a) + Filled(b)
  {
    assert multiset(a + b) == multiset(a) + multiset(b);
  }

  /** Every mask cell is determined by its (x, y) coordinates: two masks that agree
      on every cell are equal. */
  lemma MaskExt(a: seq<int>, b: seq<int>)
    requires |a| == 25 && |b| == 25
    requires forall x, y :: 0 <= x < 5 && 0 <= y < 5 ==> At(a, x, y) == At(b, x, y)
    ensures a == b
  {
    forall j | 0 <= j < 25
      ensures a[j] == b[j]
    {
      assert j == j % 5 + (j / 5) * 5;
      assert At(a, j % 5, j / 5) == At(b, j % 5, j / 5);
    }
  }

  /** Writing cell (x, y) of a mask changes that cell and no other. */
  lemma AtUpdate(mask: seq<int>, x: int, y: int, v: int)
    requires |mask| == 25 && 0 <= x < 5 && 0 <= y < 5
    ensures |mask[x + y * 5 := v]| == 25
    ensures forall c, r :: 0 <= c < 5 && 0 <= r < 5 ==>
      At(mask[x + y * 5 := v], c, r) == if c == x && r == y then v else At(mask, c, r)
  {
    var m := mask[x + y * 5 := v];
    forall c, r | 0 <= c < 5 && 0 <= r < 5
      ensures At(m, c, r) == if c == x && r == y then v else At(mask, c, r)
    {
      if r < y {
        assert r * 5 + 5 <= y * 5;
      } else if y < r {
        assert y * 5 + 5 <= r * 5;
      }
    }
  }

  /** A mask that has an occupied entry has an occupied cell (x, y). */
  lemma SomeCell(mask: seq<int>) returns (x: int, y: int)
    requires |mask| == 25 && Filled(mask) > 0
    ensures 0 <= x < 5 && 0 <= y < 5 && At(mask, x, y) != 0
  {
    if forall i :: 0 <= i < 25 ==> mask[i] == 0 {
      AllZeroUnfilled(mask);
    }
    var i :| 0 <= i < 25 && mask[i] != 0;
    x, y := i % 5, i / 5;
  }

  /** The values of s read at the positions p lists, in that order. */
  function Gather(s: seq<int>, p: seq<int>): (r: seq<int>)
    requires forall i :: 0 <= i < |p| ==> 0 <= p[i] < |s|
    ensures |r| == |p|
    decreases |p|
  {
    if |p| == 0 then [] else Gather(s, p[..|p| - 1]) + [s[p[|p| - 1]]]
  }

  /** Entry i of a gathered sequence is the entry of s at position p[i]. */
  lemma {:induction false} GatherIndex(s: seq<int>, p: seq<int>)
    requires forall i :: 0 <= i < |p| ==> 0 <= p[i] < |s|
    ensures forall i :: 0 <= i < |p| ==> Gather(s, p)[i] == s[p[i]]
    decreases |p|
  {
    if |p| > 0 {
      GatherIndex(s, p[..|p| - 1]);
    }
  }

  /** p sends the indices of a sequence of length |p| injectively into [0, n). */
  ghost predicate Injective(p: seq<int>, n: int)
  {
    (forall i :: 0 <= i < |p| ==> 0 <= p[i] < n) &&
    (forall i, j :: 0 <= i < j < |p| ==> p[i] != p[j])
  }

  /** Reading a sequence through an injective index map of the same length
      only reorders it: the multiset of values is unchanged. */
  lemma {:induction false} PermutationMultiset(s: seq<int>, t: seq<int>, p: seq<int>)
    requires |t| == |p| == |s| && Injective(p, |s|)
    requires forall i :: 0 <= i < |t| ==> t[i] == s[p[i]]
    ensures multiset(t) == multiset(s)
  {
    if |t| > 0 {
      var n := |t| - 1;
      var k := p[n];
      var s' := s[..k] + s[k + 1..];
      var p' := seq(n, i requires 0 <= i < n => if p[i] < k then p[i] else p[i] - 1);
      var t' := t[..n];
      forall i | 0 <= i < n
        ensures t'[i] == s'[p'[i]]
      {
        assert p[i] != k;
      }
      PermutationMultiset(s', t', p');
      assert s == s[..k] + [s[k]] + s[k + 1..];
      assert t == t' + [s[k]];
    }
  }
}
