/**
 * MinQueue.java: a binary min-heap in a growable array, 1-indexed (slot 0
 * is never used), ordered by an integer key (for the solver's boards,
 * Board.compareTo compares manhattan scores, so the key is that score).
 * The live elements are arr[1..n]; the array doubles when an insertion
 * reaches its end and halves when a removal leaves it a quarter full.
 */
module MinQueues {
  import opened Optional

  /** The live count fits the array: slots 1..n exist. */
  predicate Fits(n: nat, length: nat) {
    n == 0 || n < length
  }

  /** The live children of slot p (slots 2p and 2p + 1) have keys at least v. */
  ghost predicate ChildrenAtLeast<T>(s: seq<T>, n: nat, key: T -> int, p: nat, v: int)
    requires n < |s|
  {
    (2 * p <= n ==> v <= key(s[2 * p])) && (2 * p + 1 <= n ==> v <= key(s[2 * p + 1]))
  }

  /**
   * Slot p's key is at most those of its live children, except perhaps the
   * child in slot c (c == 0 excepts nothing: slot 0 is nobody's child).
   */
  ghost predicate ParentOk<T>(s: seq<T>, n: nat, key: T -> int, p: nat, c: nat)
    requires 1 <= p <= n < |s|
  {
    (2 * p <= n && 2 * p != c ==> key(s[p]) <= key(s[2 * p])) &&
    (2 * p + 1 <= n && 2 * p + 1 != c ==> key(s[p]) <= key(s[2 * p + 1]))
  }

  /** Heap order on the live slots 1..n: no child's key is below its parent's. */
  ghost predicate HeapOrdered<T>(s: seq<T>, n: nat, key: T -> int)
    requires Fits(n, |s|)
  {
    forall p :: 1 <= p <= n ==> ParentOk(s, n, key, p, 0)
  }

  /** Heap order, except possibly between slot q and its parent, while q swims up. */
  ghost predicate SwimInvariant<T>(s: seq<T>, n: nat, key: T -> int, q: nat)
    requires 1 <= q <= n < |s|
  {
    (forall p :: 1 <= p <= n ==> ParentOk(s, n, key, p, q)) &&
    (q > 1 ==> ChildrenAtLeast(s, n, key, q, key(s[q / 2])))
  }

  /** Heap order, except possibly between slot q and its children, while q sinks down. */
  ghost predicate SinkInvariant<T>(s: seq<T>, n: nat, key: T -> int, q: nat)
    requires 1 <= q <= n < |s|
  {
    (forall p :: 1 <= p <= n && p != q ==> ParentOk(s, n, key, p, 0)) &&
    (q > 1 ==> ChildrenAtLeast(s, n, key, q, key(s[q / 2])))
  }

  /** s with slots i and j exchanged. */
  function SwapAt<T>(s: seq<T>, i: nat, j: nat): (t: seq<T>)
    requires i < |s| && j < |s|
    ensures |t| == |s| && t[i] == s[j] && t[j] == s[i]
    ensures forall k :: 0 <= k < |s| && k != i && k != j ==> t[k] == s[k]
  {
    s[i := s[j]][j := s[i]]
  }

  function Min(x: nat, y: nat): (m: nat)
    ensures m <= x && m <= y && (m == x || m == y)
  {
    if x < y then x else y
  }

  /** The exchanges in sw all lie inside [lo, hi). */
  predicate SwapsWithin(sw: seq<(nat, nat)>, lo: nat, hi: nat) {
    forall k :: 0 <= k < |sw| ==> lo <= sw[k].0 < hi && lo <= sw[k].1 < hi
  }

  /** s after the exchanges in sw, in order. */
  function ApplySwaps<T>(s: seq<T>, sw: seq<(nat, nat)>): (t: seq<T>)
    requires SwapsWithin(sw, 0, |s|)
    ensures |t| == |s|
  {
    if |sw| == 0 then s
    else SwapAt(ApplySwaps(s, sw[..|sw| - 1]), sw[|sw| - 1].0, sw[|sw| - 1].1)
  }

  /** One more exchange p, inside [lo, hi), at the end of the log. */
  lemma ApplySwapsSnoc<T>(s: seq<T>, sw: seq<(nat, nat)>, p: (nat, nat), lo: nat, hi: nat)
    requires hi <= |s| && SwapsWithin(sw, lo, hi) && SwapsWithin(sw, 0, |s|)
    requires lo <= p.0 < hi && lo <= p.1 < hi
    ensures SwapsWithin(sw + [p], lo, hi) && SwapsWithin(sw + [p], 0, |s|)
    ensures ApplySwaps(s, sw + [p]) == SwapAt(ApplySwaps(s, sw), p.0, p.1)
  {
    assert (sw + [p])[..|sw|] == sw;
  }

  /** Exchanges inside [lo, hi) keep the multiset of that slice. */
  lemma {:induction false} SwapsKeepSlice<T>(s: seq<T>, sw: seq<(nat, nat)>, lo: nat, hi: nat)
    requires lo <= hi <= |s| && SwapsWithin(sw, lo, hi)
    ensures SwapsWithin(sw, 0, |s|)
    ensures multiset(ApplySwaps(s, sw)[lo..hi]) == multiset(s[lo..hi])
    decreases |sw|
  {
    if |sw| > 0 {
      var last := sw[|sw| - 1];
      assert SwapsWithin(sw[..|sw| - 1], lo, hi);
      SwapsKeepSlice(s, sw[..|sw| - 1], lo, hi);
      SwapKeepsSlice(ApplySwaps(s, sw[..|sw| - 1]), last.0, last.1, lo, hi);
    }
  }

  /** Exchanging two slots inside s[lo..hi] keeps the multiset of that slice. */
  lemma SwapKeepsSlice<T>(s: seq<T>, i: nat, j: nat, lo: nat, hi: nat)
    requires lo <= i < hi && lo <= j < hi && hi <= |s|
    ensures multiset(SwapAt(s, i, j)[lo..hi]) == multiset(s[lo..hi])
  {
    var t := s[lo..hi];
    assert SwapAt(s, i, j)[lo..hi] == t[i - lo := t[j - lo]][j - lo := t[i - lo]];
  }

  /** Elements drawn from a sequence whose keys are at least v have keys at least v. */
  lemma KeysAtLeastSub<T>(a: seq<T>, b: seq<T>, key: T -> int, v: int)
    requires multiset(a) <= multiset(b) && KeysAtLeast(b, key, v)
    ensures KeysAtLeast(a, key, v)
  {
    forall i | 0 <= i < |a|
      ensures v <= key(a[i])
    {
      assert a[i] in multiset(b);
    }
  }

  /** Copying the live slots into another array keeps the heap order. */
  lemma HeapKeptByCopy<T>(s: seq<T>, t: seq<T>, n: nat, m: nat, key: T -> int)
    requires n < m <= |s| && m <= |t| && HeapOrdered(s, n, key)
    requires t[..m] == s[..m]
    ensures HeapOrdered(t, n, key) && t[1..n + 1] == s[1..n + 1]
  {
    assert forall k :: 0 <= k < m ==> t[k] == t[..m][k];
    forall p | 1 <= p <= n
      ensures ParentOk(t, n, key, p, 0)
    {
      assert ParentOk(s, n, key, p, 0);
    }
  }

  /** The live slots 1..n of a heap array. */
  function Live<T>(s: seq<T>, n: nat): (e: seq<T>)
    requires Fits(n, |s|)
    ensures |e| == n
  {
    if n == 0 then [] else s[1..n + 1]
  }

  /**
   * add's first half: s0 holds a heap of n - 1 elements, s1 is s0 or a larger
   * copy of it, and t is s1 with v in slot n. Then v may swim up from slot n,
   * and slots 1..n-1 of t are the old live elements.
   */
  lemma AppendStartsSwim<T>(s0: seq<T>, s1: seq<T>, t: seq<T>, n: nat, key: T -> int, v: T)
    requires 1 <= n < |s1| && Fits(n - 1, |s0|) && HeapOrdered(s0, n - 1, key)
    requires |s0| <= |s1| && s1[..|s0|] == s0
    requires t == s1[n := v]
    ensures SwimInvariant(t, n, key, n)
    ensures t[1..n] == Live(s0, n - 1) && t[n] == v
  {
    assert forall k :: 0 <= k < |s0| ==> s1[k] == s1[..|s0|][k];
    forall p | 1 <= p <= n
      ensures ParentOk(t, n, key, p, n)
    {
      if p < n {
        assert ParentOk(s0, n - 1, key, p, 0);
      }
    }
  }

  /** One step of swim keeps its invariant, one level up. */
  lemma SwimStep<T>(s: seq<T>, n: nat, key: T -> int, q: nat)
    requires 1 < q <= n < |s| && SwimInvariant(s, n, key, q)
    requires key(s[q]) < key(s[q / 2])
    ensures SwimInvariant(SwapAt(s, q, q / 2), n, key, q / 2)
  {
    var p := q / 2;
    var t := SwapAt(s, q, p);
    forall r | 1 <= r <= n
      ensures ParentOk(t, n, key, r, p)
    {
      assert ParentOk(s, n, key, r, q);
      if r == p {
        assert q == 2 * p || q == 2 * p + 1;
      }
    }
    if p > 1 {
      assert ParentOk(s, n, key, p / 2, q);
      assert ParentOk(s, n, key, p, q);
    }
  }


  /** Swim stops at the root or below a parent that is not larger: the heap is ordered. */
  lemma SwimDone<T>(s: seq<T>, n: nat, key: T -> int, q: nat)
    requires 1 <= q <= n < |s| && SwimInvariant(s, n, key, q)
    requires q > 1 ==> key(s[q / 2]) <= key(s[q])
    ensures HeapOrdered(s, n, key)
  {
    forall p | 1 <= p <= n
      ensures ParentOk(s, n, key, p, 0)
    {
      assert ParentOk(s, n, key, p, q);
    }
  }

  /** Moving the last live element to the root, after the root left, lets it sink from there. */
  lemma RemoveStartsSink<T>(s: seq<T>, n: nat, key: T -> int)
    requires 2 <= n < |s| && HeapOrdered(s, n, key)
    ensures SinkInvariant(SwapAt(s, 1, n), n - 1, key, 1)
  {
    var t := SwapAt(s, 1, n);
    var m := n - 1;
    forall p | 2 <= p <= m
      ensures ParentOk(t, m, key, p, 0)
    {
      assert ParentOk(s, n, key, p, 0);
    }
  }


  /** One step of sink keeps its invariant, one level down. */
  lemma SinkStep<T>(s: seq<T>, n: nat, key: T -> int, q: nat, j: nat)
    requires 1 <= q && 2 * q <= n < |s| && SinkInvariant(s, n, key, q)
    requires (j == 2 * q || j == 2 * q + 1) && j <= n
    requires ChildrenAtLeast(s, n, key, q, key(s[j]))
    requires key(s[j]) <= key(s[q])
    ensures SinkInvariant(SwapAt(s, q, j), n, key, j)
  {
    var t := SwapAt(s, q, j);
    forall r | 1 <= r <= n && r != j
      ensures ParentOk(t, n, key, r, 0)
    {
      if r != q {
        assert ParentOk(s, n, key, r, 0);
      }
    }
    assert ParentOk(s, n, key, j, 0);
  }

  /** Sink stops when no child of slot q is smaller than it: the heap is ordered. */
  lemma SinkDone<T>(s: seq<T>, n: nat, key: T -> int, q: nat)
    requires 1 <= q <= n < |s| && SinkInvariant(s, n, key, q)
    requires ChildrenAtLeast(s, n, key, q, key(s[q]))
    ensures HeapOrdered(s, n, key)
  {
    forall p | 1 <= p <= n
      ensures ParentOk(s, n, key, p, 0)
    {
    }
  }

  /** The root of a heap holds a smallest key. */
  lemma {:induction false} RootIsMin<T>(s: seq<T>, n: nat, key: T -> int, i: nat)
    requires Fits(n, |s|) && HeapOrdered(s, n, key) && 1 <= i <= n
    ensures key(s[1]) <= key(s[i])
    decreases i
  {
    if i > 1 {
      assert ParentOk(s, n, key, i / 2, 0);
      RootIsMin(s, n, key, i / 2);
    }
  }

  /** Every element of s has a key at least v. */
  ghost predicate KeysAtLeast<T>(s: seq<T>, key: T -> int, v: int) {
    forall i :: 0 <= i < |s| ==> v <= key(s[i])
  }

  /** Every live element has a key at least the root's. */
  lemma RootIsMinOfAll<T>(s: seq<T>, n: nat, key: T -> int)
    requires 1 <= n < |s| && HeapOrdered(s, n, key)
    ensures KeysAtLeast(s[1..n + 1], key, key(s[1]))
  {
    var live := s[1..n + 1];
    forall i | 0 <= i < |live|
      ensures key(s[1]) <= key(live[i])
    {
      RootIsMin(s, n, key, i + 1);
    }
  }

  /**
   * The live slots after add: the old live slots 1..n-1 with v placed in slot
   * n, then rearranged by exchanges among slots 1..n, hold the old elements and v.
   */
  lemma AddedToHeap<T>(placed: seq<T>, after: seq<T>, sw: seq<(nat, nat)>, n: nat, before: seq<T>, v: T)
    requires 1 <= n < |placed| && placed[1..n] == before && placed[n] == v
    requires SwapsWithin(sw, 1, n + 1) && after == ApplySwaps(placed, sw)
    ensures multiset(after[1..n + 1]) == multiset(before) + multiset{v}
  {
    SwapsKeepSlice(placed, sw, 1, n + 1);
    PlacedLast(placed, n, before, v);
  }

  lemma PlacedLast<T>(placed: seq<T>, n: nat, before: seq<T>, v: T)
    requires 1 <= n < |placed| && placed[1..n] == before && placed[n] == v
    ensures multiset(placed[1..n + 1]) == multiset(before) + multiset{v}
  {
    assert placed[1..n + 1] == before + [v];
  }

  /**
   * The live slots after removeMin: the root s[1] is exchanged with the last
   * live slot m, and the slots 1..m-1 are then rearranged among themselves.
   * Those slots and the old root make up the old live elements, and none of
   * them has a key below the old root's.
   */
  lemma RemovedFromHeap<T>(s: seq<T>, after: seq<T>, sw: seq<(nat, nat)>, m: nat, key: T -> int)
    requires 1 <= m < |s| && HeapOrdered(s, m, key)
    requires SwapsWithin(sw, 1, m) && after == ApplySwaps(SwapAt(s, 1, m), sw)
    ensures multiset(after[1..m]) + multiset{s[1]} == multiset(s[1..m + 1])
    ensures KeysAtLeast(after[1..m], key, key(s[1]))
  {
    RemovedKeepsElements(s, after, sw, m);
    RootIsMinOfAll(s, m, key);
    KeysAtLeastSub(after[1..m], s[1..m + 1], key, key(s[1]));
  }

  /** The multiset half of RemovedFromHeap: the old root plus the rearranged slots 1..m-1. */
  lemma RemovedKeepsElements<T>(s: seq<T>, after: seq<T>, sw: seq<(nat, nat)>, m: nat)
    requires 1 <= m < |s| && SwapsWithin(sw, 1, m) && after == ApplySwaps(SwapAt(s, 1, m), sw)
    ensures multiset(after[1..m]) + multiset{s[1]} == multiset(s[1..m + 1])
  {
    SwapsKeepSlice(SwapAt(s, 1, m), sw, 1, m);
    RootSwappedOut(s, m);
  }

  /** Exchanging the root with slot m leaves slots 1..m-1 holding the old live elements but the root. */
  lemma RootSwappedOut<T>(s: seq<T>, m: nat)
    requires 1 <= m < |s|
    ensures multiset(SwapAt(s, 1, m)[1..m]) + multiset{s[1]} == multiset(s[1..m + 1])
  {
    var t := SwapAt(s, 1, m);
    SwapKeepsSlice(s, 1, m, 1, m + 1);
    var rest := t[1..m];
    assert t[1..m + 1] == rest + [s[1]];
    assert multiset(t[1..m + 1]) == multiset(rest) + multiset{s[1]};
  }

  // ---------------------------------------------------------------------------
  // The private helpers of MinQueue, on the heap array a with n live slots

  /** MinQueue.less. */
  predicate Less<T>(a: array<T>, key: T -> int, i: nat, j: nat)
    reads a
    requires i < a.Length && j < a.Length
  {
    key(a[i]) < key(a[j])
  }

  /** less is a strict order on the slots: irreflexive, asymmetric and transitive. */
  lemma LessIsStrict<T>(a: array<T>, key: T -> int, i: nat, j: nat, k: nat)
    requires i < a.Length && j < a.Length && k < a.Length
    ensures !Less(a, key, i, i)
    ensures Less(a, key, i, j) ==> !Less(a, key, j, i)
    ensures Less(a, key, i, j) && Less(a, key, j, k) ==> Less(a, key, i, k)
  {
  }

  /** MinQueue.swap. */
  method Swap<T>(a: array<T>, i: nat, j: nat)
    requires i < a.Length && j < a.Length
    modifies a
    ensures a[..] == SwapAt(old(a[..]), i, j)
  {
    var temp := a[i];
    a[i] := a[j];
    a[j] := temp;
  }

  /**
   * MinQueue.swim: the element in slot q rises while it is smaller than its
   * parent. The ghost result lists the exchanges made, all among the live slots.
   */
  method Swim<T>(a: array<T>, n: nat, key: T -> int, q0: nat) returns (ghost sw: seq<(nat, nat)>)
    requires 1 <= q0 <= n < a.Length && SwimInvariant(a[..], n, key, q0)
    modifies a
    ensures HeapOrdered(a[..], n, key)
    ensures SwapsWithin(sw, 1, n + 1) && SwapsWithin(sw, 0, a.Length)
    ensures a[..] == ApplySwaps(old(a[..]), sw)
  {
    sw := [];
    ghost var orig := a[..];
    var q := q0;
    while q > 1 && Less(a, key, q, q / 2)
      invariant 1 <= q <= n && SwimInvariant(a[..], n, key, q)
      invariant SwapsWithin(sw, 1, n + 1) && SwapsWithin(sw, 0, a.Length)
      invariant a[..] == ApplySwaps(orig, sw)
      decreases q
    {
      ghost var s := a[..];
      SwimStep(s, n, key, q);
      ghost var p: (nat, nat) := (q, q / 2);
      ApplySwapsSnoc(orig, sw, p, 1, n + 1);
      Swap(a, q, q / 2);
      sw := sw + [p];
      q := q / 2;
    }
    SwimDone(a[..], n, key, q);
  }

  /**
   * MinQueue.sink: the element in slot q descends while a child is not
   * larger. The ghost result lists the exchanges made, all among the live slots.
   */
  method Sink<T>(a: array<T>, n: nat, key: T -> int, q0: nat) returns (ghost sw: seq<(nat, nat)>)
    requires 1 <= q0 <= n < a.Length && SinkInvariant(a[..], n, key, q0)
    modifies a
    ensures HeapOrdered(a[..], n, key)
    ensures SwapsWithin(sw, 1, n + 1) && SwapsWithin(sw, 0, a.Length)
    ensures a[..] == ApplySwaps(old(a[..]), sw)
  {
    sw := [];
    ghost var orig := a[..];
    var q := q0;
    while 2 * q <= n
      invariant 1 <= q <= n && SinkInvariant(a[..], n, key, q)
      invariant SwapsWithin(sw, 1, n + 1) && SwapsWithin(sw, 0, a.Length)
      invariant a[..] == ApplySwaps(orig, sw)
      decreases n - q
    {
      var j := if 2 * q < n && Less(a, key, 2 * q + 1, 2 * q) then 2 * q + 1 else 2 * q;
      assert ChildrenAtLeast(a[..], n, key, q, key(a[j]));
      if Less(a, key, q, j) {
        SinkDone(a[..], n, key, q);
        break;
      }
      ghost var s := a[..];
      SinkStep(s, n, key, q, j);
      ghost var p: (nat, nat) := (q, j);
      ApplySwapsSnoc(orig, sw, p, 1, n + 1);
      Swap(a, q, j);
      sw := sw + [p];
      q := j;
    }
    if 2 * q > n {
      SinkDone(a[..], n, key, q);
    }
  }

  class MinQueue<T(0)> {
    var n: nat
    var arr: array<T>
    /** compareTo as an integer key: a < b exactly when key(a) < key(b). */
    const key: T -> int

    ghost predicate Valid()
      reads this, arr
    {
      Fits(n, arr.Length) && HeapOrdered(arr[..], n, key)
    }

    /** The live elements arr[1..n]. */
    ghost function Elements(): (e: seq<T>)
      reads this, arr
      requires Fits(n, arr.Length)
      ensures |e| == n
    {
      Live(arr[..], n)
    }

    /** MinQueue(int potential_size); MinQueue() is potentialSize 0. */
    constructor (potentialSize: nat, key: T -> int)
      ensures Valid() && n == 0 && Elements() == []
      ensures arr.Length == potentialSize && this.key == key
      ensures fresh(arr)
    {
      n := 0;
      arr := new T[potentialSize];
      this.key := key;
    }

    /** MinQueue.add: a `null` item (None) is ignored. */
    method Add(item: Option<T>)
      requires Valid()
      modifies this, arr
      ensures Valid()
      ensures arr == old(arr) || fresh(arr)
      ensures item.None? ==> n == old(n) && arr == old(arr) && arr[..] == old(arr[..])
      ensures item.Some? ==>
        n == old(n) + 1 && n < arr.Length &&
        multiset(Elements()) == multiset(old(Elements())) + multiset{item.value}
      ensures item.Some? && old(n) + 1 >= old(arr.Length) ==> arr.Length == 2 * (old(n) + 1)
      ensures item.Some? && old(n) + 1 < old(arr.Length) ==> arr == old(arr)
    {
      if item.None? {
        return;
      }
      ghost var s0 := arr[..];
      ghost var before := Elements();
      assert before == Live(s0, n);
      n := n + 1;
      if n >= arr.Length {
        ResizeArr(n * 2);
        assert arr[..|s0|] == s0;
      }
      ghost var s1 := arr[..];
      arr[n] := item.value;
      ghost var placed := arr[..];
      AppendStartsSwim(s0, s1, placed, n, key, item.value);
      ghost var sw := Swim(arr, n, key, n);
      AddedToHeap(placed, arr[..], sw, n, before, item.value);
      assert Elements() == Live(arr[..], n);
    }

    /**
     * MinQueue.removeMin: None stands for NoSuchElementException on an empty
     * queue. The root is returned, the last live element takes its slot and
     * sinks, and the array halves once it is at most a quarter full.
     */
    method RemoveMin() returns (r: Option<T>)
      requires Valid()
      modifies this, arr
      ensures Valid()
      ensures arr == old(arr) || fresh(arr)
      ensures old(n) == 0 ==> r.None? && n == 0 && arr == old(arr) && arr[..] == old(arr[..])
      ensures old(n) > 0 ==>
        r == Some(old(arr[1])) && n == old(n) - 1 &&
        multiset(Elements()) + multiset{r.value} == multiset(old(Elements())) &&
        KeysAtLeast(Elements(), key, key(r.value))
      ensures old(n) > 0 && old(n) - 1 <= old(arr.Length) / 4 ==> arr.Length == old(arr.Length) / 2
      ensures old(n) > 0 && old(n) - 1 > old(arr.Length) / 4 ==> arr == old(arr)
    {
      if n <= 0 {
        return None;
      }
      ghost var s0 := arr[..];
      ghost var m0 := n;
      var min := arr[1];
      Swap(arr, 1, n);
      n := n - 1;
      ghost var sw: seq<(nat, nat)> := [];
      if n > 0 {
        RemoveStartsSink(s0, m0, key);
        sw := Sink(arr, n, key, 1);
      }
      RemovedFromHeap(s0, arr[..], sw, m0, key);
      ghost var after := arr[..][1..m0];
      if n <= arr.Length / 4 {
        ghost var s1 := arr[..];
        ghost var m := Min(arr.Length, arr.Length / 2);
        assert HeapOrdered(s1, n, key) && n < m;
        ResizeArr(arr.Length / 2);
        HeapKeptByCopy(s1, arr[..], n, m, key);
      }
      assert Elements() == after;
      return Some(min);
    }

    /** MinQueue.getMin: the element removeMin would return, None on an empty queue. */
    method GetMin() returns (r: Option<T>)
      requires Valid()
      ensures r.None? <==> n == 0
      ensures r.Some? ==> r.value == arr[1] && KeysAtLeast(Elements(), key, key(r.value))
    {
      if n <= 0 {
        return None;
      }
      RootIsMinOfAll(arr[..], n, key);
      return Some(arr[1]);
    }

    /** MinQueue.size. */
    method Size() returns (r: nat)
      requires Valid()
      ensures r == |Elements()|
    {
      return n;
    }

    /** MinQueue.softClear: empties the queue and keeps the array. */
    method SoftClear()
      requires Valid()
      modifies this
      ensures Valid() && n == 0 && Elements() == [] && arr == old(arr)
    {
      n := 0;
    }

    /** MinQueue.resize_arr: a new array of newLength slots, the first min(old, new) copied over. */
    method ResizeArr(newLength: nat)
      modifies this
      ensures fresh(arr) && arr.Length == newLength && n == old(n)
      ensures arr[..Min(old(arr.Length), newLength)] == old(arr[..])[..Min(old(arr.Length), newLength)]
    {
      var newArr := new T[newLength];
      var m := Min(arr.Length, newLength);
      var i := 0;
      while i < m
        invariant 0 <= i <= m
        invariant forall k :: 0 <= k < i ==> newArr[k] == arr[k]
        modifies newArr
      {
        newArr[i] := arr[i];
        i := i + 1;
      }
      arr := newArr;
    }
  }

  /** The keys of s never decrease. */
  ghost predicate SortedByKey<T>(s: seq<T>, key: T -> int) {
    forall i, j :: 0 <= i < j < |s| ==> key(s[i]) <= key(s[j])
  }

  /**
   * One removal while draining: out is sorted and its last key is at most
   * every key left in before; m is removed from before leaving after, and m's
   * key is at most every key in after. Then out + [m] is sorted too, its last
   * key is at most every key in after, and no element is lost or gained.
   */
  lemma DrainStep<T>(out: seq<T>, before: seq<T>, after: seq<T>, m: T, key: T -> int, all: multiset<T>)
    requires SortedByKey(out, key) && (|out| > 0 ==> KeysAtLeast(before, key, key(out[|out| - 1])))
    requires multiset(after) + multiset{m} == multiset(before) && KeysAtLeast(after, key, key(m))
    requires multiset(out) + multiset(before) == all
    ensures SortedByKey(out + [m], key) && KeysAtLeast(after, key, key(m))
    ensures multiset(out + [m]) + multiset(after) == all
  {
    if |out| > 0 {
      assert m in multiset(before);
      var i :| 0 <= i < |before| && before[i] == m;
      assert key(out[|out| - 1]) <= key(m);
    }
  }

  /** Adds the items one by one, in order. */
  method AddAll<T(0)>(q: MinQueue<T>, items: seq<T>)
    requires q.Valid()
    modifies q, q.arr
    ensures q.Valid() && (q.arr == old(q.arr) || fresh(q.arr))
    ensures multiset(q.Elements()) == multiset(old(q.Elements())) + multiset(items)
  {
    ghost var start := q.Elements();
    var k := 0;
    while k < |items|
      invariant 0 <= k <= |items| && q.Valid()
      invariant q.arr == old(q.arr) || fresh(q.arr)
      invariant multiset(q.Elements()) == multiset(start) + multiset(items[..k])
    {
      ghost var before := q.Elements();
      q.Add(Some(items[k]));
      AddedOneMore(start, items, k, before, q.Elements());
      k := k + 1;
    }
    assert items[..k] == items;
  }

  /** One more item added: the contents gain items[k], so they hold the first k + 1 items. */
  lemma AddedOneMore<T>(start: seq<T>, items: seq<T>, k: nat, before: seq<T>, after: seq<T>)
    requires k < |items| && multiset(before) == multiset(start) + multiset(items[..k])
    requires multiset(after) == multiset(before) + multiset{items[k]}
    ensures multiset(after) == multiset(start) + multiset(items[..k + 1])
  {
    assert items[..k + 1] == items[..k] + [items[k]];
  }

  /** Removes the minimum until the queue is empty: the elements come out in key order. */
  method RemoveAll<T(0)>(q: MinQueue<T>) returns (out: seq<T>)
    requires q.Valid()
    modifies q, q.arr
    ensures q.Valid() && q.Elements() == []
    ensures multiset(out) == multiset(old(q.Elements()))
    ensures SortedByKey(out, q.key)
  {
    out := [];
    ghost var all := multiset(q.Elements());
    ghost var rest := q.Elements();
    var size := q.Size();
    while size > 0
      invariant q.Valid()
      invariant q.arr == old(q.arr) || fresh(q.arr)
      invariant rest == q.Elements() && size == |rest|
      invariant multiset(out) + multiset(rest) == all
      invariant SortedByKey(out, q.key) && (|out| > 0 ==> KeysAtLeast(rest, q.key, q.key(out[|out| - 1])))
      decreases size
    {
      var m := q.RemoveMin();
      DrainStep(out, rest, q.Elements(), m.value, q.key, all);
      out := out + [m.value];
      rest := q.Elements();
      size := q.Size();
    }
  }

  /**
   * Adding every item to a new MinQueue and then removing until it is empty
   * yields the items in non-decreasing key order.
   */
  method DrainInKeyOrder<T(0)>(items: seq<T>, key: T -> int) returns (out: seq<T>)
    ensures multiset(out) == multiset(items)
    ensures SortedByKey(out, key)
  {
    var q := new MinQueue<T>(0, key);
    AddAll(q, items);
    out := RemoveAll(q);
  }
}
