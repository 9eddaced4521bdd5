/**
 * The max-heap of cells that drives the approximation. Cells compare as
 * `Cell`'s derived order does: by x first, then by y, so the heap hands out
 * the cell with the largest x, and among those the largest y.
 */
module CellHeaps {
  import opened Wrappers
  import opened Pieces

  /** Each element is at least as large as every later one. */
  predicate NonIncreasing(s: seq<Cell>)
  {
    forall i, j :: 0 <= i < j < |s| ==> !CellLess(s[i], s[j])
  }

  /** A cell above y is not below anything y is not below. */
  lemma NotAbove(y: Cell, c: Cell, x: Cell)
    requires CellLess(y, c) && !CellLess(y, x)
    ensures !CellLess(c, x)
  {
  }

  /** Inserting c where the scan for its place stopped keeps the order. */
  lemma InsertKeepsOrder(s: seq<Cell>, i: nat, c: Cell)
    requires NonIncreasing(s) && i <= |s|
    requires forall k :: 0 <= k < i ==> !CellLess(s[k], c)
    requires i < |s| ==> CellLess(s[i], c)
    ensures NonIncreasing(s[..i] + [c] + s[i..])
  {
    var t := s[..i] + [c] + s[i..];
    forall a, b | 0 <= a < b < |t| ensures !CellLess(t[a], t[b]) {
      if a == i {
        // c sits just above s[i], the largest of the cells after it
        NotAbove(s[i], c, s[b - 1]);
      }
    }
  }

  /** Inserting an element anywhere adds it once to the contents. */
  lemma InsertCounts<T>(s: seq<T>, i: nat, c: T)
    requires i <= |s|
    ensures multiset(s[..i] + [c] + s[i..]) == multiset(s) + multiset{c}
    ensures |s[..i] + [c] + s[i..]| == |s| + 1
  {
    assert s == s[..i] + s[i..];
  }

  /** The largest cell of a collection: no element is above it. */
  predicate IsMaximum(c: Cell, m: multiset<Cell>)
  {
    c in m && forall d :: d in m ==> !CellLess(c, d)
  }

  /** The head of a non-empty non-increasing sequence is its maximum. */
  lemma HeadIsMaximum(s: seq<Cell>)
    requires NonIncreasing(s) && |s| > 0
    ensures IsMaximum(s[0], multiset(s))
  {
    forall d | d in multiset(s) ensures !CellLess(s[0], d) {
      var k :| 0 <= k < |s| && s[k] == d;
      if k == 0 {
        CellLessTotal(d, d);
      }
    }
  }

  /** Taking away what was added gives back what was there. */
  lemma Cancel<T>(a: multiset<T>, b: multiset<T>)
    ensures (a + b) - b == a && b <= a + b
  {
  }

  /** A collection has one non-increasing arrangement: two with the same elements are equal. */
  lemma {:induction false} NonIncreasingUnique(a: seq<Cell>, b: seq<Cell>)
    requires NonIncreasing(a) && NonIncreasing(b) && multiset(a) == multiset(b)
    ensures a == b
    decreases |a|
  {
    assert |a| == |multiset(a)| == |b|;
    if a != [] {
      SameHead(a, b);
      SameTail(a, b);
      TailNonIncreasing(a);
      TailNonIncreasing(b);
      NonIncreasingUnique(a[1..], b[1..]);
      assert a == [a[0]] + a[1..] && b == [b[0]] + b[1..];
    }
  }

  /** Two non-increasing arrangements of the same cells start with the same, largest, cell. */
  lemma SameHead(a: seq<Cell>, b: seq<Cell>)
    requires NonIncreasing(a) && NonIncreasing(b) && multiset(a) == multiset(b) && |a| > 0 && |b| > 0
    ensures a[0] == b[0]
  {
    HeadIsMaximum(a);
    HeadIsMaximum(b);
    CellLessTotal(a[0], b[0]);
  }

  /** Without their common head, two arrangements of the same cells still hold the same cells. */
  lemma SameTail(a: seq<Cell>, b: seq<Cell>)
    requires multiset(a) == multiset(b) && |a| > 0 && |b| > 0 && a[0] == b[0]
    ensures multiset(a[1..]) == multiset(b[1..])
  {
    var (ta, tb, h) := (a[1..], b[1..], multiset{a[0]});
    assert multiset(a) == multiset(ta) + h by {
      assert a == [a[0]] + ta;
    }
    assert multiset(b) == multiset(tb) + h by {
      assert b == [b[0]] + tb;
    }
    Cancel(multiset(ta), h);
    Cancel(multiset(tb), h);
  }

  /** Dropping the head keeps a sequence non-increasing. */
  lemma TailNonIncreasing(s: seq<Cell>)
    requires NonIncreasing(s) && |s| > 0
    ensures NonIncreasing(s[1..])
  {
    forall i, j | 0 <= i < j < |s| - 1 ensures !CellLess(s[1..][i], s[1..][j]) {
      assert s[1..][i] == s[i + 1] && s[1..][j] == s[j + 1];
    }
  }

  /**
   * Popping the maximum of what is left onto a log that is at least
   * everything left keeps the log non-increasing, and still at least
   * everything left.
   */
  lemma PopKeepsOrder(log: seq<Cell>, c: Cell, left: multiset<Cell>, rest: multiset<Cell>)
    requires NonIncreasing(log) && IsMaximum(c, left) && left == rest + multiset{c}
    requires forall i, d :: 0 <= i < |log| && d in left ==> !CellLess(log[i], d)
    ensures NonIncreasing(log + [c])
    ensures forall i, d :: 0 <= i < |log + [c]| && d in rest ==> !CellLess((log + [c])[i], d)
  {
    var t := log + [c];
    forall i, j | 0 <= i < j < |t| ensures !CellLess(t[i], t[j]) {
      assert t[i] == log[i];
      if j < |log| {
        assert t[j] == log[j];
      } else {
        assert t[j] == c && c in left;
      }
    }
    forall i, d | 0 <= i < |t| && d in rest ensures !CellLess(t[i], d) {
      assert d in left;
      if i < |log| {
        assert t[i] == log[i];
      }
    }
  }

  /** `BinaryHeap<Cell>`, kept as the sequence of its cells from largest to smallest. */
  class CellHeap {
    var elems: seq<Cell>

    ghost predicate Valid()
      reads this
    {
      NonIncreasing(elems)
    }

    /** The cells in the heap, counted with multiplicity. */
    function Contents(): multiset<Cell>
      reads this
    {
      multiset(elems)
    }

    /** `BinaryHeap::new`. */
    constructor()
      ensures Valid() && elems == []
    {
      elems := [];
    }

    /** `BinaryHeap::push`: the cell joins the heap, which keeps its order. */
    method Push(c: Cell)
      requires Valid()
      modifies this
      ensures Valid()
      ensures Contents() == old(Contents()) + multiset{c}
      ensures |elems| == |old(elems)| + 1
    {
      var i := 0;
      while i < |elems| && !CellLess(elems[i], c)
        invariant 0 <= i <= |elems|
        invariant forall k :: 0 <= k < i ==> !CellLess(elems[k], c)
      {
        i := i + 1;
      }
      InsertKeepsOrder(elems, i, c);
      InsertCounts(elems, i, c);
      elems := elems[..i] + [c] + elems[i..];
    }

    /** `BinaryHeap::pop`: nothing from an empty heap, otherwise the largest cell, which leaves the heap. */
    method Pop() returns (r: Option<Cell>)
      requires Valid()
      modifies this
      ensures Valid()
      ensures old(elems) == [] <==> r.None?
      ensures r.None? ==> elems == old(elems)
      ensures r.Some? ==> IsMaximum(r.value, old(Contents())) && old(Contents()) == Contents() + multiset{r.value}
      ensures r.Some? ==> |elems| == |old(elems)| - 1
    {
      if elems == [] {
        return None;
      }
      HeadIsMaximum(elems);
      r := Some(elems[0]);
      assert elems == [elems[0]] + elems[1..];
      elems := elems[1..];
    }
  }
}
