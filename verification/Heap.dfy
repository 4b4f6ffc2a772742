/**
 The binary heap of vkmutil (heap.c). The sifts move elements past a hole in the buffer and
 write the sifted element once, at the end.
 */
module Heap {

  /** A comparator, as the C callbacks are: negative when the first argument is the lesser. */
  type Comparator<!T> = (T, T) -> int

  predicate AtMost<T>(cmp: Comparator<T>, a: T, b: T) { cmp(b, a) >= 0 }

  /** Any two elements compare, ties included, and comparing is transitive. */
  ghost predicate TotalPreorder<T(!new)>(cmp: Comparator<T>) {
    && (forall a, b :: AtMost(cmp, a, b) || AtMost(cmp, b, a))
    && (forall a, b, c :: AtMost(cmp, a, b) && AtMost(cmp, b, c) ==> AtMost(cmp, a, c))
  }

  function Parent(k: nat): nat
    requires k > 0
  {
    (k - 1) / 2
  }

  /** The heap order between positions whose parent is at lo or behind it. */
  ghost predicate HeapFrom<T>(cmp: Comparator<T>, s: seq<T>, lo: nat) {
    forall k :: 0 < k < |s| && Parent(k) >= lo ==> AtMost(cmp, s[k], s[Parent(k)])
  }

  ghost predicate IsHeap<T>(cmp: Comparator<T>, s: seq<T>) { HeapFrom(cmp, s, 0) }

  ghost predicate IsMaximum<T>(cmp: Comparator<T>, x: T, m: multiset<T>) {
    x in m && forall y :: y in m ==> AtMost(cmp, y, x)
  }

  lemma {:induction false} HeapTop<T(!new)>(cmp: Comparator<T>, s: seq<T>, k: nat)
    requires TotalPreorder(cmp) && IsHeap(cmp, s) && k < |s|
    ensures AtMost(cmp, s[k], s[0])
  {
    if k > 0 {
      HeapTop(cmp, s, Parent(k));
      assert AtMost(cmp, s[k], s[Parent(k)]);
    }
  }

  /** The first element of a heap is a maximum of all of them. */
  lemma HeapMaximum<T(!new)>(cmp: Comparator<T>, s: seq<T>)
    requires TotalPreorder(cmp) && IsHeap(cmp, s) && s != []
    ensures IsMaximum(cmp, s[0], multiset(s))
  {
    forall y | y in multiset(s) ensures AtMost(cmp, y, s[0]) {
      var k :| 0 <= k < |s| && s[k] == y;
      HeapTop(cmp, s, k);
    }
  }

  /** For numbers, compared by their difference: a maximum is one that no other exceeds. */
  lemma LargestNumber(x: int, m: multiset<int>)
    ensures var cmp: Comparator<int> := (a, b) => a - b;
      && TotalPreorder(cmp)
      && (IsMaximum(cmp, x, m) <==> x in m && forall y :: y in m ==> y <= x)
  {
    var cmp: Comparator<int> := (a, b) => a - b;
    assert forall a, b :: AtMost(cmp, a, b) <==> a <= b;
  }

  // ---- exchanging an element with its parent ----------------------------------------------

  function Swap<T>(s: seq<T>, i: nat, j: nat): (r: seq<T>)
    requires i < |s| && j < |s|
    ensures |r| == |s|
  {
    s[i := s[j]][j := s[i]]
  }

  lemma SwapPermutes<T>(s: seq<T>, i: nat, j: nat)
    requires i < |s| && j < |s|
    ensures multiset(Swap(s, i, j)) == multiset(s)
  {
  }

  /** Heap order except above h; below h it holds for the parent of h, too. */
  ghost predicate ExceptAbove<T>(cmp: Comparator<T>, s: seq<T>, h: nat) {
    && h < |s|
    && (forall k :: 0 < k < |s| && k != h ==> AtMost(cmp, s[k], s[Parent(k)]))
    && (h > 0 ==> forall k :: 0 < k < |s| && Parent(k) == h ==> AtMost(cmp, s[k], s[Parent(h)]))
  }

  /** A new last element is the only exception in a heap. */
  lemma AppendedExcept<T>(cmp: Comparator<T>, s: seq<T>)
    requires s != [] && IsHeap(cmp, s[..|s| - 1])
    ensures ExceptAbove(cmp, s, |s| - 1)
  {
    var front := s[..|s| - 1];
    forall k | 0 < k < |s| - 1 ensures AtMost(cmp, s[k], s[Parent(k)]) {
      assert AtMost(cmp, front[k], front[Parent(k)]);
    }
  }

  lemma MovedUp<T(!new)>(cmp: Comparator<T>, s: seq<T>, h: nat)
    requires TotalPreorder(cmp) && ExceptAbove(cmp, s, h) && h > 0 && !AtMost(cmp, s[h], s[Parent(h)])
    ensures ExceptAbove(cmp, Swap(s, h, Parent(h)), Parent(h))
  {
    var p := Parent(h);
    var r := Swap(s, h, p);
    assert AtMost(cmp, s[p], s[h]);
    forall k | 0 < k < |r| && k != p ensures AtMost(cmp, r[k], r[Parent(k)]) {
      if Parent(k) == p && k != h { assert AtMost(cmp, s[k], s[p]); }
    }
    if p > 0 {
      assert AtMost(cmp, s[p], s[Parent(p)]);
      forall k | 0 < k < |r| && Parent(k) == p ensures AtMost(cmp, r[k], r[Parent(p)]) {
        if k != h { assert AtMost(cmp, s[k], s[p]); }
      }
    }
  }

  lemma StoppedUp<T>(cmp: Comparator<T>, s: seq<T>, h: nat)
    requires ExceptAbove(cmp, s, h) && (h > 0 ==> AtMost(cmp, s[h], s[Parent(h)]))
    ensures IsHeap(cmp, s)
  {
  }

  /** Heap order from lo on, except below h; the children of h are in order with its parent. */
  ghost predicate ExceptBelow<T>(cmp: Comparator<T>, s: seq<T>, lo: nat, h: nat) {
    && lo <= h < |s|
    && (forall k :: 0 < k < |s| && Parent(k) >= lo && Parent(k) != h ==> AtMost(cmp, s[k], s[Parent(k)]))
    && (h > lo ==> Parent(h) >= lo && forall k :: 0 < k < |s| && Parent(k) == h ==> AtMost(cmp, s[k], s[Parent(h)]))
  }

  /** A child of h that is no less than the other. */
  ghost predicate GreaterChild<T>(cmp: Comparator<T>, s: seq<T>, h: nat, c: nat) {
    0 < c < |s| && Parent(c) == h && forall k :: 0 < k < |s| && Parent(k) == h ==> AtMost(cmp, s[k], s[c])
  }

  lemma MovedDown<T(!new)>(cmp: Comparator<T>, s: seq<T>, lo: nat, h: nat, c: nat)
    requires TotalPreorder(cmp) && ExceptBelow(cmp, s, lo, h) && GreaterChild(cmp, s, h, c) && AtMost(cmp, s[h], s[c])
    ensures ExceptBelow(cmp, Swap(s, h, c), lo, c)
  {
    var r := Swap(s, h, c);
    forall k | 0 < k < |r| && Parent(k) >= lo && Parent(k) != c ensures AtMost(cmp, r[k], r[Parent(k)]) {
      if k == h { assert AtMost(cmp, s[c], s[Parent(h)]); }
    }
    forall k | 0 < k < |r| && Parent(k) == c ensures AtMost(cmp, r[k], r[h]) {
      assert AtMost(cmp, s[k], s[c]);
    }
  }

  // ---- the sifts --------------------------------------------------------------------------

  /** The buffer's elements from first to last, with t in the hole at position h. */
  ghost function Filled<T>(v: array<T>, first: nat, last: nat, h: nat, t: T): seq<T>
    reads v
    requires first <= last <= v.Length && h < last - first
  {
    v[first..last][h := t]
  }

  /** Nothing outside the range changes. */
  twostate predicate OnlyWithin<T>(v: array<T>, first: nat, last: nat)
    reads v
  {
    forall k :: 0 <= k < v.Length && !(first <= k < last) ==> v[k] == old(v[k])
  }

  lemma FilledAt<T>(v: array<T>, first: nat, last: nat, h: nat, t: T, k: nat)
    requires first <= last <= v.Length && h < last - first && k < last - first
    ensures |Filled(v, first, last, h, t)| == last - first
    ensures Filled(v, first, last, h, t)[k] == if k == h then t else v[first + k]
  {
  }

  /** The element at c moves into the hole at h, and leaves the hole at c. */
  method MoveHole<T>(v: array<T>, first: nat, last: nat, h: nat, c: nat, ghost t: T)
    requires first <= last <= v.Length && h < last - first && c < last - first && h != c
    modifies v
    ensures |old(Filled(v, first, last, h, t))| == last - first
    ensures Filled(v, first, last, c, t) == Swap(old(Filled(v, first, last, h, t)), h, c)
    ensures multiset(Filled(v, first, last, c, t)) == multiset(old(Filled(v, first, last, h, t)))
    ensures OnlyWithin(v, first, last)
  {
    v[first + h] := v[first + c];
    SwapPermutes(old(Filled(v, first, last, h, t)), h, c);
    assert Filled(v, first, last, c, t) == Swap(old(Filled(v, first, last, h, t)), h, c);
  }

  method FillHole<T>(v: array<T>, first: nat, last: nat, h: nat, t: T)
    requires first <= last <= v.Length && h < last - first
    modifies v
    ensures v[first..last] == old(Filled(v, first, last, h, t))
    ensures OnlyWithin(v, first, last)
  {
    v[first + h] := t;
  }

  /** `__sift_up`: the last element of the range rises to its place. */
  method SiftUp<T(!new)>(v: array<T>, first: nat, last: nat, cmp: Comparator<T>)
    requires TotalPreorder(cmp) && first <= last <= v.Length && (first < last ==> IsHeap(cmp, v[first..last - 1]))
    modifies v
    ensures IsHeap(cmp, v[first..last]) && multiset(v[first..last]) == multiset(old(v[first..last]))
    ensures OnlyWithin(v, first, last)
  {
    hide TotalPreorder, ExceptAbove, IsHeap, HeapFrom, Filled, Swap;
    ghost var s := v[first..last];
    var len := last - first;
    if len <= 1 {
      ShortHeap(cmp, s);
      return;
    }
    assert s[..|s| - 1] == v[first..last - 1];
    AppendedExcept(cmp, s);
    len := (len - 2) / 2;
    var hole := last - first - 1;
    if cmp(v[first + len], v[first + hole]) >= 0 {
      StoppedUp(cmp, s, hole);
      return;
    }
    var t := v[first + hole];
    FilledWithOwn(v, first, last, hole);
    while true
      invariant 0 < hole < last - first && len == Parent(hole)
      invariant multiset(Filled(v, first, last, hole, t)) == multiset(s)
      invariant ExceptAbove(cmp, Filled(v, first, last, hole, t), hole) && !AtMost(cmp, t, v[first + len])
      invariant OnlyWithin(v, first, last)
      decreases hole
    {
      FilledAt(v, first, last, hole, t, hole);
      FilledAt(v, first, last, hole, t, len);
      MovedUp(cmp, Filled(v, first, last, hole, t), hole);
      MoveHole(v, first, last, hole, len, t);
      hole := len;
      if len == 0 { break; }
      len := (len - 1) / 2;
      FilledAt(v, first, last, hole, t, hole);
      FilledAt(v, first, last, hole, t, len);
      if cmp(v[first + len], t) >= 0 { break; }
    }
    StoppedUp(cmp, Filled(v, first, last, hole, t), hole);
    FillHole(v, first, last, hole, t);
  }

  lemma FilledWithOwn<T>(v: array<T>, first: nat, last: nat, h: nat)
    requires first <= last <= v.Length && h < last - first
    ensures Filled(v, first, last, h, v[first + h]) == v[first..last]
  {
  }

  lemma ShortHeap<T>(cmp: Comparator<T>, s: seq<T>)
    requires |s| <= 1
    ensures IsHeap(cmp, s)
  {
  }

  /** The greater child of the hole: the right one only if it is strictly greater. */
  method PickChild<T(!new)>(v: array<T>, first: nat, last: nat, cmp: Comparator<T>, h: nat, ghost t: T)
      returns (child: nat)
    requires TotalPreorder(cmp) && first <= last <= v.Length && 2 * h + 1 < last - first
    ensures h < child < last - first
    ensures GreaterChild(cmp, Filled(v, first, last, h, t), h, child)
  {
    child := 2 * h + 1;
    if child + 1 < last - first {
      if cmp(v[first + child], v[first + child + 1]) < 0 { child := child + 1; }
      assert AtMost(cmp, v[first + 2 * h + 1], v[first + child]) && AtMost(cmp, v[first + 2 * h + 2], v[first + child]);
    } else {
      assert AtMost(cmp, v[first + child], v[first + child]);
    }
    ghost var s := Filled(v, first, last, h, t);
    forall k | 0 < k < |s| && Parent(k) == h ensures AtMost(cmp, s[k], s[child]) {
      assert k == 2 * h + 1 || k == 2 * h + 2;
    }
  }

  /** `__sift_down`: the element at start sinks to its place among the heaps below it. */
  method SiftDown<T(!new)>(v: array<T>, first: nat, last: nat, cmp: Comparator<T>, start: nat)
    requires TotalPreorder(cmp) && first <= start < last <= v.Length
    requires HeapFrom(cmp, v[first..last], start - first + 1)
    modifies v
    ensures HeapFrom(cmp, v[first..last], start - first) && multiset(v[first..last]) == multiset(old(v[first..last]))
    ensures OnlyWithin(v, first, last)
  {
    hide TotalPreorder, GreaterChild, HeapFrom, ExceptBelow, Filled, Swap;
    var lo, len := start - first, last - first;
    ghost var s := v[first..last];
    HeapExcept(cmp, s, lo);
    if len < 2 || (len - 2) / 2 < lo {
      NoChild(cmp, s, lo, lo);
      return;
    }
    var top := v[start];
    var child := PickChild(v, first, last, cmp, lo, top);
    FilledWithOwn(v, first, last, lo);
    FilledAt(v, first, last, lo, top, child);
    if cmp(v[first + child], v[start]) < 0 {
      ChildrenLess(cmp, s, lo, lo, child);
      return;
    }
    var hole := lo;
    while true
      invariant hole < child < len
      invariant multiset(Filled(v, first, last, hole, top)) == multiset(s)
      invariant ExceptBelow(cmp, Filled(v, first, last, hole, top), lo, hole)
      invariant GreaterChild(cmp, Filled(v, first, last, hole, top), hole, child) && AtMost(cmp, top, v[first + child])
      invariant OnlyWithin(v, first, last)
      decreases len - hole
    {
      FilledAt(v, first, last, hole, top, hole);
      FilledAt(v, first, last, hole, top, child);
      MovedDown(cmp, Filled(v, first, last, hole, top), lo, hole, child);
      MoveHole(v, first, last, hole, child, top);
      hole := child;
      FilledAt(v, first, last, hole, top, hole);
      if (len - 2) / 2 < child {
        NoChild(cmp, Filled(v, first, last, hole, top), lo, hole);
        break;
      }
      child := PickChild(v, first, last, cmp, hole, top);
      FilledAt(v, first, last, hole, top, child);
      if cmp(v[first + child], top) < 0 {
        ChildrenLess(cmp, Filled(v, first, last, hole, top), lo, hole, child);
        break;
      }
    }
    FillHole(v, first, last, hole, top);
  }

  lemma HeapExcept<T>(cmp: Comparator<T>, s: seq<T>, lo: nat)
    requires HeapFrom(cmp, s, lo + 1) && lo < |s|
    ensures ExceptBelow(cmp, s, lo, lo)
  {
  }

  lemma NoChild<T>(cmp: Comparator<T>, s: seq<T>, lo: nat, h: nat)
    requires ExceptBelow(cmp, s, lo, h) && (|s| < 2 || (|s| - 2) / 2 < h)
    ensures HeapFrom(cmp, s, lo)
  {
  }

  lemma ChildrenLess<T(!new)>(cmp: Comparator<T>, s: seq<T>, lo: nat, h: nat, c: nat)
    requires TotalPreorder(cmp) && ExceptBelow(cmp, s, lo, h) && GreaterChild(cmp, s, h, c) && !AtMost(cmp, s[h], s[c])
    ensures HeapFrom(cmp, s, lo)
  {
    assert AtMost(cmp, s[c], s[h]);
    forall k | 0 < k < |s| && Parent(k) == h ensures AtMost(cmp, s[k], s[h]) {
      assert AtMost(cmp, s[k], s[c]);
    }
  }

  // ---- heap.h -----------------------------------------------------------------------------

  /** `Make_Heap`. */
  method MakeHeap<T(!new)>(v: array<T>, first: nat, last: nat, cmp: Comparator<T>)
    requires TotalPreorder(cmp) && first <= last <= v.Length
    modifies v
    ensures IsHeap(cmp, v[first..last]) && multiset(v[first..last]) == multiset(old(v[first..last]))
    ensures OnlyWithin(v, first, last)
  {
    hide TotalPreorder;
    if last - first > 1 {
      var start := (last - first - 2) / 2;
      while start >= 0
        invariant -1 <= start < last - first
        invariant HeapFrom(cmp, v[first..last], start + 1) && multiset(v[first..last]) == multiset(old(v[first..last]))
        invariant OnlyWithin(v, first, last)
      {
        SiftDown(v, first, last, cmp, first + start);
        start := start - 1;
      }
    }
  }

  /** `Heap_Push`: the last element of the range joins the heap in front of it. */
  method HeapPush<T(!new)>(v: array<T>, first: nat, last: nat, cmp: Comparator<T>)
    requires TotalPreorder(cmp) && first <= last <= v.Length && (first < last ==> IsHeap(cmp, v[first..last - 1]))
    modifies v
    ensures IsHeap(cmp, v[first..last]) && multiset(v[first..last]) == multiset(old(v[first..last]))
    ensures OnlyWithin(v, first, last)
  {
    SiftUp(v, first, last, cmp);
  }

  /** `Heap_Pop`: a maximum moves behind the heap of the others. */
  method HeapPop<T(!new)>(v: array<T>, first: nat, last: nat, cmp: Comparator<T>)
    requires TotalPreorder(cmp) && first <= last <= v.Length && IsHeap(cmp, v[first..last])
    modifies v
    ensures multiset(v[first..last]) == multiset(old(v[first..last]))
    ensures first < last ==>
      && v[last - 1] == old(v[first]) && IsMaximum(cmp, v[last - 1], multiset(v[first..last]))
      && IsHeap(cmp, v[first..last - 1])
      && multiset(v[first..last - 1]) == multiset(old(v[first..last])) - multiset{old(v[first])}
    ensures OnlyWithin(v, first, last)
  {
    hide TotalPreorder, HeapFrom, IsHeap, IsMaximum;
    if first < last {
      ghost var s := v[first..last];
      HeapMaximum(cmp, s);
      if last - first > 1 {
        PopToEnd(v, first, last, cmp);
      } else {
        SingleHeap(cmp, s);
        assert v[first..last - 1] == [];
      }
      assert v[first..last] == v[first..last - 1] + [s[0]];
      PutBack(s, v[first..last - 1], v[first..last]);
    }
  }

  method PopToEnd<T(!new)>(v: array<T>, first: nat, last: nat, cmp: Comparator<T>)
    requires TotalPreorder(cmp) && first + 1 < last <= v.Length && IsHeap(cmp, v[first..last])
    modifies v
    ensures v[last - 1] == old(v[first]) && IsHeap(cmp, v[first..last - 1])
    ensures multiset(v[first..last - 1]) == multiset(old(v[first..last])) - multiset{old(v[first])}
    ensures OnlyWithin(v, first, last)
  {
    hide TotalPreorder, HeapFrom, IsHeap;
    SwapEnds(v, first, last, cmp);
    SiftDown(v, first, last - 1, cmp, first);
    HeapFromZero(cmp, v[first..last - 1]);
  }

  lemma HeapFromZero<T>(cmp: Comparator<T>, s: seq<T>)
    requires HeapFrom(cmp, s, 0)
    ensures IsHeap(cmp, s)
  {
  }

  /** The SWAP of the first and the last element: what was behind the first stays a heap of heaps. */
  method SwapEnds<T(!new)>(v: array<T>, first: nat, last: nat, cmp: Comparator<T>)
    requires first + 1 < last <= v.Length && IsHeap(cmp, v[first..last])
    modifies v
    ensures v[last - 1] == old(v[first]) && HeapFrom(cmp, v[first..last - 1], 1)
    ensures multiset(v[first..last - 1]) == multiset(old(v[first..last])) - multiset{old(v[first])}
    ensures OnlyWithin(v, first, last)
  {
    hide HeapFrom, IsHeap;
    ghost var s := v[first..last];
    v[first], v[last - 1] := v[last - 1], v[first];
    SwappedEnds(cmp, s, v[first..last - 1], v[last - 1]);
  }

  lemma PutBack<T>(s: seq<T>, r: seq<T>, all: seq<T>)
    requires s != [] && all == r + [s[0]] && multiset(r) == multiset(s) - multiset{s[0]}
    ensures multiset(all) == multiset(s)
  {
  }

  lemma SwappedEnds<T>(cmp: Comparator<T>, s: seq<T>, r: seq<T>, top: T)
    requires |s| > 1 && IsHeap(cmp, s) && |r| == |s| - 1 && r[0] == s[|s| - 1] && top == s[0]
    requires forall k :: 0 < k < |r| ==> r[k] == s[k]
    ensures HeapFrom(cmp, r, 1)
    ensures multiset(r) == multiset(s) - multiset{s[0]}
  {
    assert s == [s[0]] + s[1..|s| - 1] + [s[|s| - 1]];
    assert r == [s[|s| - 1]] + s[1..|s| - 1];
    forall k | 0 < k < |r| && Parent(k) >= 1 ensures AtMost(cmp, r[k], r[Parent(k)]) {
      assert AtMost(cmp, s[k], s[Parent(k)]);
    }
  }

  lemma SingleHeap<T>(cmp: Comparator<T>, s: seq<T>)
    requires |s| == 1
    ensures IsHeap(cmp, []) && multiset(s) - multiset{s[0]} == multiset([])
  {
    assert s == [s[0]];
  }
}
