/** The min-heap of idle times that selects the sessions to evict. Push and Pop are those of the Go
    heap package over the proxy's Less and Swap. */
module SessionHeap {
  import opened Bytes

  type Key = seq<Byte>

  datatype SessionAge = SessionAge(key: Key, idle: int)

  type Heaped = seq<SessionAge>

  function Parent(k: nat): (p: nat)
    requires k > 0
    ensures p < k
  {
    (k - 1) / 2
  }

  // ---------------------------------------------------------------------------------------
  // Heap order on sequences
  // ---------------------------------------------------------------------------------------

  predicate IsHeap(h: Heaped) {
    forall k: nat | 0 < k < |h| :: h[Parent(k)].idle <= h[k].idle
  }

  /** A heap but for the element at j, which may be smaller than its parent; its children respect that parent. */
  predicate HeapButAt(h: Heaped, j: nat)
    requires j < |h|
  {
    && (forall k: nat | 0 < k < |h| && k != j :: h[Parent(k)].idle <= h[k].idle)
    && (j > 0 ==> forall k: nat | 0 < k < |h| && Parent(k) == j :: h[Parent(j)].idle <= h[k].idle)
  }

  /** The first n elements are a heap but below i, whose children may be smaller than it; they respect its parent. */
  predicate HeapButBelow(h: Heaped, i: nat, n: nat)
    requires i <= n <= |h|
  {
    && (forall k: nat | 0 < k < n && Parent(k) != i :: h[Parent(k)].idle <= h[k].idle)
    && (0 < i < n ==> forall k: nat | 0 < k < n && Parent(k) == i :: h[Parent(i)].idle <= h[k].idle)
  }

  function Swapped(h: Heaped, i: nat, j: nat): (r: Heaped)
    requires i < |h| && j < |h|
    ensures |r| == |h|
  {
    h[i := h[j]][j := h[i]]
  }

  lemma {:induction false} RootIsMin(h: Heaped, k: nat)
    requires IsHeap(h) && k < |h|
    ensures h[0].idle <= h[k].idle
    decreases k
  {
    if k > 0 {
      RootIsMin(h, Parent(k));
    }
  }

  lemma UpStep(h: Heaped, j: nat)
    requires 0 < j < |h| && HeapButAt(h, j) && h[j].idle < h[Parent(j)].idle
    ensures HeapButAt(Swapped(h, Parent(j), j), Parent(j))
  {
    var p := Parent(j);
    var r := Swapped(h, p, j);
    forall k: nat | 0 < k < |h| && k != p ensures r[Parent(k)].idle <= r[k].idle {
      assert k != j ==> h[Parent(k)].idle <= h[k].idle;
    }
    if p > 0 {
      assert h[Parent(p)].idle <= h[p].idle;
      forall k: nat | 0 < k < |h| && Parent(k) == p ensures r[Parent(p)].idle <= r[k].idle {
        assert k != j ==> h[Parent(k)].idle <= h[k].idle;
      }
    }
  }

  /** The smaller child of i. */
  predicate SmallerChild(h: Heaped, i: nat, j: nat, n: nat)
    requires n <= |h|
  {
    && 0 < j < n && Parent(j) == i
    && forall k: nat | 0 < k < n && Parent(k) == i :: h[j].idle <= h[k].idle
  }

  lemma DownStep(h: Heaped, i: nat, j: nat, n: nat)
    requires i < n <= |h| && HeapButBelow(h, i, n) && SmallerChild(h, i, j, n) && h[j].idle < h[i].idle
    ensures HeapButBelow(Swapped(h, i, j), j, n)
  {
    var r := Swapped(h, i, j);
    forall k: nat | 0 < k < n && Parent(k) != j ensures r[Parent(k)].idle <= r[k].idle {
      assert Parent(k) != i ==> h[Parent(k)].idle <= h[k].idle;
    }
    forall k: nat | 0 < k < n && Parent(k) == j ensures r[Parent(j)].idle <= r[k].idle {
      assert h[Parent(k)].idle <= h[k].idle;
    }
  }

  lemma DownStops(h: Heaped, i: nat, n: nat)
    requires i <= n <= |h| && HeapButBelow(h, i, n)
    requires forall k: nat | 0 < k < n && Parent(k) == i :: i < n && h[i].idle <= h[k].idle
    ensures IsHeap(h[..n])
  {
    forall k: nat | 0 < k < n ensures h[Parent(k)].idle <= h[k].idle {}
  }

  // ---------------------------------------------------------------------------------------
  // The heap
  // ---------------------------------------------------------------------------------------

  class Heap {
    var h: Heaped

    constructor ()
      ensures h == []
    {
      h := [];
    }

    method Swap(i: nat, j: nat)
      requires i < |h| && j < |h|
      modifies this
      ensures h == Swapped(old(h), i, j) && multiset(h) == multiset(old(h))
    {
      h := Swapped(h, i, j);
    }

    method Push(x: SessionAge)
      requires IsHeap(h)
      modifies this
      ensures IsHeap(h) && multiset(h) == multiset(old(h)) + multiset{x}
    {
      hide Swapped, HeapButAt;
      Appended(h, x);
      h := h + [x];
      var j := |h| - 1;
      while j > 0 && h[j].idle < h[Parent(j)].idle
        invariant 0 <= j < |h|
        invariant multiset(h) == multiset(old(h)) + multiset{x}
        invariant HeapButAt(h, j)
        decreases j
      {
        UpStep(h, j);
        Swap(Parent(j), j);
        j := Parent(j);
      }
      UpStops(h, j);
    }

    method Down(n: nat)
      requires 0 < |h| && n == |h| - 1 && HeapButBelow(h, 0, n)
      modifies this
      ensures |h| == |old(h)| && h[n] == old(h[n]) && multiset(h) == multiset(old(h))
      ensures IsHeap(h[..n])
    {
      hide HeapButBelow, IsHeap;
      var i := 0;
      while true
        invariant |h| == |old(h)| && 0 <= i <= n && h[n] == old(h[n])
        invariant multiset(h) == multiset(old(h))
        invariant HeapButBelow(h, i, n)
        decreases n - i
      {
        var j := 2 * i + 1;
        if j >= n {
          break;
        }
        if j + 1 < n && h[j + 1].idle < h[j].idle {
          j := j + 1;
        }
        assert SmallerChild(h, i, j, n);
        if h[j].idle >= h[i].idle {
          break;
        }
        DownStep(h, i, j, n);
        Swap(i, j);
        i := j;
      }
      DownStops(h, i, n);
    }

    method Pop() returns (x: SessionAge)
      requires |h| > 0 && IsHeap(h)
      modifies this
      ensures x == old(h[0]) && IsHeap(h) && |h| == |old(h)| - 1
      ensures multiset(old(h)) == multiset(h) + multiset{x}
    {
      var n := |h| - 1;
      Swap(0, n);
      Down(n);
      x := h[n];
      assert h == h[..n] + [x];
      h := h[..n];
    }
  }

  lemma Appended(h: Heaped, x: SessionAge)
    requires IsHeap(h)
    ensures HeapButAt(h + [x], |h|)
  {
    assert forall k: nat | 0 < k < |h + [x]| :: Parent(k) < |h|;
  }

  lemma UpStops(h: Heaped, j: nat)
    requires j < |h| && HeapButAt(h, j) && (j > 0 ==> h[Parent(j)].idle <= h[j].idle)
    ensures IsHeap(h)
  {}
}
