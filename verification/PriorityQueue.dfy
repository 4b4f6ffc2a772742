/**
 The growable vector of vkmutil (vector.c) and the priority queue on it (priority_queue.c).
 */
module PriorityQueues {
  import opened Bytes
  import opened Heap

  /** `Vector`, with `zero` for the all-zero element that growth fills in. */
  class Vector<T> {
    var data: array<T>
    var cap: nat
    var top: nat
    const zero: T

    ghost predicate Valid()
      reads this
    {
      top <= cap == data.Length
    }

    ghost function Contents(): seq<T>
      reads this, data
      requires Valid()
    {
      data[..top]
    }

    /** `__newVectorSize`. */
    constructor (cap: nat, zero: T)
      ensures Valid() && Contents() == [] && this.cap == cap && fresh(data)
    {
      this.data := new T[cap](_ => zero);
      this.cap, this.top, this.zero := cap, 0, zero;
    }

    /** `Vector_Resize`: a capacity below the number of elements leaves `top` behind the buffer. */
    method Resize(newcap: nat)
      requires Valid()
      modifies this
      ensures cap == data.Length == newcap && top == old(top) && fresh(data) && (Valid() <==> newcap >= top)
      ensures Valid() ==> Contents() == old(Contents())
      ensures forall k :: 0 <= k < cap ==> data[k] == if k < old(cap) then old(data[k]) else zero
    {
      var z := zero;
      var a := new T[newcap](_ => z);
      forall k | 0 <= k < newcap && k < cap { a[k] := data[k]; }
      data, cap := a, newcap;
    }

    /** `__vector_PutPtr`: the vector reaches to the element at least. */
    method PutAt(pos: nat, elem: T)
      requires Valid()
      modifies this, data
      ensures Valid() && (data == old(data) || fresh(data))
      ensures cap == if pos < old(cap) then old(cap) else pos + 1
      ensures top == if pos < old(top) then old(top) else pos + 1
      ensures Contents()[pos] == elem
      ensures forall k :: 0 <= k < old(top) && k != pos ==> Contents()[k] == old(Contents())[k]
      ensures forall k :: old(cap) <= k < pos ==> Contents()[k] == zero
    {
      if pos >= cap { Resize(pos + 1); }
      data[pos] := elem;
      if pos >= top { top := pos + 1; }
    }

    /** `__vector_PushPtr`: a full vector doubles. */
    method Push(elem: T) returns (r: nat)
      requires Valid()
      modifies this, data
      ensures Valid() && (data == old(data) || fresh(data))
      ensures Contents() == old(Contents()) + [elem] && r == top
      ensures cap == if old(top) < old(cap) then old(cap) else if old(cap) > 0 then 2 * old(cap) else 1
    {
      if top == cap { Resize(if cap > 0 then cap * 2 else 1); }
      PutAt(top, elem);
      r := top;
    }

    /** `Vector_Get`. */
    method Get(pos: nat) returns (r: Option<T>)
      requires Valid()
      ensures r == if pos < top then Some(Contents()[pos]) else None
    {
      r := if pos >= top then None else Some(data[pos]);
    }

    /** `Vector_Pop`. */
    method Pop() returns (r: Option<T>)
      requires Valid()
      modifies this`top
      ensures Valid() && data == old(data) && cap == old(cap)
      ensures if old(top) == 0 then r == None && top == 0
              else r == Some(old(Contents())[old(top) - 1]) && Contents() == old(Contents())[..old(top) - 1]
    {
      r := None;
      if top > 0 {
        r := Get(top - 1);
        top := top - 1;
      }
    }
  }

  /** `PriorityQueue`. */
  class PriorityQueue<T(!new)> {
    const v: Vector<T>
    const cmp: Comparator<T>

    ghost predicate Valid()
      reads this, v, v.data
    {
      TotalPreorder(cmp) && v.Valid() && IsHeap(cmp, v.Contents())
    }

    ghost function Elements(): multiset<T>
      reads this, v, v.data
      requires v.Valid()
    {
      multiset(v.Contents())
    }

    constructor (cap: nat, zero: T, cmp: Comparator<T>)
      requires TotalPreorder(cmp)
      ensures Valid() && Elements() == multiset{} && this.cmp == cmp && fresh(v) && fresh(v.data)
    {
      var w := new Vector<T>(cap, zero);
      this.v, this.cmp := w, cmp;
    }

    /** `__priority_Queue_PushPtr`. */
    method Push(elem: T) returns (top: nat)
      requires Valid()
      modifies v, v.data
      ensures Valid() && (v.data == old(v.data) || fresh(v.data))
      ensures Elements() == old(Elements()) + multiset{elem} && top == |Elements()|
    {
      hide TotalPreorder, IsHeap;
      ghost var s := v.Contents();
      top := v.Push(elem);
      assert v.data[0..top - 1] == s && v.data[0..top] == s + [elem];
      HeapPush(v.data, 0, top, cmp);
      assert v.Contents() == v.data[0..top];
    }

    /** `Priority_Queue_Pop`: the first element, a maximum, goes; an empty queue stays as it is. */
    method Pop()
      requires Valid()
      modifies v, v.data
      ensures Valid() && v.data == old(v.data)
      ensures old(v.top) == 0 ==> Elements() == multiset{} == old(Elements())
      ensures old(v.top) > 0 ==>
        && IsMaximum(cmp, old(v.data[0]), old(Elements()))
        && Elements() == old(Elements()) - multiset{old(v.data[0])}
    {
      if v.top == 0 { return; }
      hide TotalPreorder, IsHeap, IsMaximum;
      ghost var s := v.Contents();
      assert s == v.data[0..v.top];
      HeapMaximum(cmp, s);
      HeapPop(v.data, 0, v.top, cmp);
      v.top := v.top - 1;
      assert v.Contents() == v.data[0..v.top];
    }

    /** `Priority_Queue_Top`: a maximum of what is in the queue. */
    method Top() returns (r: Option<T>)
      requires Valid()
      ensures r.None? <==> Elements() == multiset{}
      ensures r.Some? ==> IsMaximum(cmp, r.value, Elements())
    {
      r := v.Get(0);
      if r.Some? {
        HeapMaximum(cmp, v.Contents());
        assert v.Contents()[0] in Elements();
      } else {
        assert v.Contents() == [];
      }
    }
  }

  // ---- whole runs -------------------------------------------------------------------------

  datatype QueueOp<T> = PushOp(elem: T) | PopOp

  /** m can be what is pushed minus what is popped, each pop having taken a maximum of its time. */
  ghost predicate Reaches<T(!new)>(cmp: Comparator<T>, ops: seq<QueueOp<T>>, m: multiset<T>)
    decreases |ops|
  {
    if ops == [] then m == multiset{}
    else
      var before := ops[..|ops| - 1];
      match ops[|ops| - 1]
      case PushOp(x) => x in m && Reaches(cmp, before, m - multiset{x})
      case PopOp =>
        || (m == multiset{} && Reaches(cmp, before, m))
        || exists x: T :: IsMaximum(cmp, x, m + multiset{x}) && Reaches(cmp, before, m + multiset{x})
  }

  lemma PushReaches<T(!new)>(cmp: Comparator<T>, ops: seq<QueueOp<T>>, m: multiset<T>, x: T)
    requires Reaches(cmp, ops, m)
    ensures Reaches(cmp, ops + [PushOp(x)], m + multiset{x})
  {
    assert (ops + [PushOp(x)])[..|ops|] == ops;
    assert m + multiset{x} - multiset{x} == m;
  }

  lemma PopReaches<T(!new)>(cmp: Comparator<T>, ops: seq<QueueOp<T>>, m: multiset<T>, x: T)
    requires Reaches(cmp, ops, m) && IsMaximum(cmp, x, m)
    ensures Reaches(cmp, ops + [PopOp], m - multiset{x})
  {
    hide IsMaximum;
    assert (ops + [PopOp])[..|ops|] == ops;
    assert x in m by { MaximumIn(cmp, m, x); }
    assert m - multiset{x} + multiset{x} == m;
  }

  lemma MaximumIn<T(!new)>(cmp: Comparator<T>, m: multiset<T>, x: T)
    requires IsMaximum(cmp, x, m)
    ensures x in m
  {
  }

  lemma PopNothing<T(!new)>(cmp: Comparator<T>, ops: seq<QueueOp<T>>)
    requires Reaches(cmp, ops, multiset{})
    ensures Reaches(cmp, ops + [PopOp], multiset{})
  {
    assert (ops + [PopOp])[..|ops|] == ops;
  }

  method Apply<T(!new)>(q: PriorityQueue<T>, op: QueueOp<T>, ghost before: seq<QueueOp<T>>)
    requires q.Valid() && Reaches(q.cmp, before, q.Elements())
    modifies q.v, q.v.data
    ensures q.Valid() && (q.v.data == old(q.v.data) || fresh(q.v.data))
    ensures Reaches(q.cmp, before + [op], q.Elements())
  {
    hide Reaches, IsMaximum, TotalPreorder, IsHeap;
    ghost var m := q.Elements();
    match op {
      case PushOp(x) =>
        var _ := q.Push(x);
        PushReaches(q.cmp, before, m, x);
      case PopOp =>
        ghost var some, x := q.v.top > 0, if q.v.top > 0 then q.v.data[0] else q.v.zero;
        q.Pop();
        if some { PopReaches(q.cmp, before, m, x); } else { PopNothing(q.cmp, before); }
    }
  }

  /** Over every run: the queue holds such a multiset, and its top is a maximum of it. */
  method Run<T(!new)>(ops: seq<QueueOp<T>>, zero: T, cmp: Comparator<T>) returns (q: PriorityQueue<T>, top: Option<T>)
    requires TotalPreorder(cmp)
    ensures q.Valid() && Reaches(cmp, ops, q.Elements())
    ensures top.None? <==> q.Elements() == multiset{}
    ensures top.Some? ==> IsMaximum(cmp, top.value, q.Elements())
  {
    hide TotalPreorder, IsMaximum;
    q := new PriorityQueue<T>(0, zero, cmp);
    var i := 0;
    assert ops[..0] == [];
    while i < |ops|
      invariant i <= |ops| && q.Valid() && q.cmp == cmp && fresh(q.v) && fresh(q.v.data)
      invariant Reaches(cmp, ops[..i], q.Elements())
    {
      assert ops[..i + 1] == ops[..i] + [ops[i]];
      Apply(q, ops[i], ops[..i]);
      i := i + 1;
    }
    assert ops[..i] == ops;
    top := q.Top();
  }
}
