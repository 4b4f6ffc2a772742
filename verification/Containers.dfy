/**
 The arrays and dictionaries of object.c, updated in place in buffers that grow.
 */
module Containers {
  import opened Bytes
  import opened Capacity
  import opened Nodes
  import opened Splices

  const INT_MAX := 0x7fff_ffff

  /** A `memmove` that opens a gap of n places at i, if anything stands behind it. */
  method MoveTail(a: array<Node>, i: nat, len: nat, n: nat)
    requires i <= len && len + n <= a.Length
    modifies a
    ensures a[..i] == old(a[..i]) && a[i + n..len + n] == old(a[i..len])
  {
    if i < len {
      forall k | i + n <= k < len + n { a[k] := a[k - n]; }
    }
  }

  /** The `memmove` of the elements from `from` to `end` down to place `to`. */
  method MoveDown(a: array<Node>, to: nat, from: nat, end: nat)
    requires to <= from <= end <= a.Length
    modifies a
    ensures forall k :: 0 <= k < to ==> a[k] == old(a[k])
    ensures forall k :: to <= k < to + end - from ==> a[k] == old(a[k + from - to])
  {
    forall k | to <= k < to + end - from { a[k] := a[k + from - to]; }
  }

  /** A `memcpy` of n elements to place i. */
  method CopyTo(a: array<Node>, i: nat, src: array<Node>, n: nat)
    requires a != src && i + n <= a.Length && n <= src.Length
    modifies a
    ensures a[..i] == old(a[..i]) && a[i..i + n] == src[..n] && a[i + n..] == old(a[i + n..])
  {
    forall k | i <= k < i + n { a[k] := src[k - i]; }
  }

  /** The tail moved away from the gap and the gap filled make an insertion. */
  lemma InsertedParts(before: seq<Node>, moved: seq<Node>, r: seq<Node>, i: nat, len: nat, s: seq<Node>)
    requires i <= len && len + |s| <= |before| == |moved| == |r|
    requires moved[..i] == before[..i] && moved[i + |s|..len + |s|] == before[i..len]
    requires r[..i] == moved[..i] && r[i..i + |s|] == s && r[i + |s|..] == moved[i + |s|..]
    ensures r[..len + |s|] == before[..len][..i] + s + before[..len][i..]
  {
    assert r[i + |s|..len + |s|] == r[i + |s|..][..len - i] && moved[i + |s|..len + |s|] == moved[i + |s|..][..len - i];
    assert before[..len][..i] == before[..i] && before[..len][i..] == before[i..len];
    assert r[..len + |s|] == r[..i] + r[i..i + |s|] + r[i + |s|..len + |s|];
  }

  lemma DeletedParts(a: seq<Node>, index: int, count: int, r: seq<Node>)
    requires 0 <= index + |a| && a != [] && count > 0
    requires var start := DelStart(index, |a|);
      && |r| == (if start + count < |a| then |a| - count else start)
      && (forall k :: 0 <= k < start ==> r[k] == a[k])
      && (forall k :: start <= k < |r| ==> r[k] == a[k + count])
    ensures r == Deleted(a, index, count)
  {
  }

  /** `t_array`. The buffer may be longer than the array. */
  class NodeArray {
    var entries: array<Node>
    var len: nat
    var cap: nat

    ghost predicate Valid()
      reads this
    {
      len <= cap == entries.Length && len <= INT_MAX
    }

    ghost function Contents(): seq<Node>
      reads this, entries
      requires Valid()
    {
      entries[..len]
    }

    /** `NewArrayNode`. */
    constructor (capacity: nat)
      ensures Valid() && Contents() == [] && cap == capacity && fresh(entries)
    {
      entries := new Node[capacity];
      len, cap := 0, capacity;
    }

    /** `__node_ArrayMakeRoomFor`. */
    method MakeRoomFor(addlen: nat)
      requires Valid() && len + addlen <= INT_MAX
      modifies this
      ensures Valid() && Contents() == old(Contents()) && len == old(len)
      ensures cap == if old(cap) >= len + addlen then old(cap) else NextCap(len + addlen)
      ensures cap >= len + addlen && (entries == old(entries) || fresh(entries))
    {
      hide NextCap, AllKeyVals;
      var newcap := len + addlen;
      if cap >= newcap { return; }
      NextCapGrows(newcap);
      var a := new Node[NextCap(newcap)];
      forall i | 0 <= i < len { a[i] := entries[i]; }
      entries, cap := a, a.Length;
    }

    /** `Node_ArrayInsert`: the elements of sub move over, in order, and sub is emptied. */
    method Insert(index: int, sub: NodeArray)
      requires Valid() && sub.Valid() && sub != this && sub.entries != entries
      requires len + sub.len <= INT_MAX
      modifies this, entries, sub
      ensures Valid() && sub.Valid() && sub.len == 0
      ensures Contents() == Inserted(old(Contents()), index, old(sub.Contents()))
      ensures cap >= old(cap) && (entries == old(entries) || fresh(entries))
    {
      hide NextCap;
      ghost var a, s := Contents(), sub.Contents();
      var i := index;
      if i < 0 { i := len + i; }
      if i < 0 { i := 0; }
      if i > len { i := len; }
      assert i == InsertIndex(index, |a|);
      MakeRoomFor(sub.len);
      FillGap(i, sub);
      sub.len := 0;
    }

    /** With room enough: the tail moves and the new elements are copied in. */
    method FillGap(i: nat, sub: NodeArray)
      requires Valid() && sub.Valid() && sub != this && sub.entries != entries
      requires i <= len && len + sub.len <= cap && len + sub.len <= INT_MAX
      modifies this, entries
      ensures Valid() && entries == old(entries) && cap == old(cap)
      ensures Contents() == old(Contents())[..i] + sub.Contents() + old(Contents())[i..]
    {
      ghost var before, n := entries[..], len;
      MoveTail(entries, i, len, sub.len);
      ghost var moved := entries[..];
      CopyTo(entries, i, sub.entries, sub.len);
      len := len + sub.len;
      InsertedParts(before, moved, entries[..], i, n, sub.Contents());
    }

    /** `Node_ArrayAppend`. */
    method Append(n: Node)
      requires Valid() && len < INT_MAX
      modifies this, entries
      ensures Valid() && Contents() == old(Contents()) + [n]
      ensures cap >= old(cap) && (entries == old(entries) || fresh(entries))
    {
      MakeRoomFor(1);
      entries[len] := n;
      len := len + 1;
    }

    /** `Node_ArrayPrepend`. */
    method Prepend(n: Node)
      requires Valid() && len < INT_MAX
      modifies this, entries
      ensures Valid() && Contents() == [n] + old(Contents())
      ensures cap >= old(cap) && (entries == old(entries) || fresh(entries))
    {
      ghost var a := Contents();
      var sub := new NodeArray(1);
      sub.Append(n);
      Insert(0, sub);
      assert Contents() == a[..0] + [n] + a[0..];
    }

    /**
     `Node_ArrayDelRange`. The maximum with 0 is taken of an unsigned sum, so an index further from
     the end than the length gives a place before the buffer; and the sum for the end may overflow.
     */
    method DelRange(index: int, count: int) returns (outside: bool)
      requires Valid()
      modifies this, entries
      ensures Valid() && cap == old(cap) && entries == old(entries)
      ensures outside <==>
        count > 0 && old(len) > 0 && (index + old(len) < 0 || DelStart(index, old(len)) + count > INT_MAX)
      ensures outside || count <= 0 || old(len) == 0 ==> Contents() == old(Contents())
      ensures !outside && 0 <= index + old(len) ==> Contents() == Deleted(old(Contents()), index, count)
    {
      hide NextCap;
      ghost var a := Contents();
      if count <= 0 || len == 0 { return false; }
      var start := if index < 0 then len + index else if index < len - 1 then index else len - 1;
      outside := start < 0 || start + count > INT_MAX;
      if outside { return; }
      var stop := if start + count < len then start + count else len;
      if stop < len { MoveDown(entries, start, stop, len); }
      len := len - (stop - start);
      DeletedParts(a, index, count, Contents());
    }

    /** `Node_ArraySet`. */
    method Set(index: int, n: Node) returns (ok: bool)
      requires Valid()
      modifies entries
      ensures Valid() && ok == (0 <= index < len)
      ensures Contents() == if ok then old(Contents())[index := n] else old(Contents())
    {
      if index < 0 || index >= len { return false; }
      entries[index] := n;
      ok := true;
    }

    /** `Node_ArrayItem`. */
    method Item(index: int) returns (r: Option<Node>)
      requires Valid()
      ensures r == if 0 <= index < len then Some(Contents()[index]) else None
    {
      r := if index < 0 || index >= len then None else Some(entries[index]);
    }

    /** The work of JSONArrTrim_ValkeyCommand on its target. */
    method Trim(start: int, stop: int)
      requires Valid()
      modifies this, entries
      ensures Valid() && Contents() == Trimmed(old(Contents()), start, stop)
    {
      hide Trimmed, Deleted, NextCap;
      ghost var a := Contents();
      var left, right := TrimBounds(start, stop, len, a);
      TwoDeletions(a, left, right);
      var outsideLeft := DelRange(0, left);
      var outsideRight := DelRange(-(right as int), right);
    }
  }

  /** The index arithmetic of JSONArrTrim_ValkeyCommand: how many elements go in front and behind. */
  method TrimBounds(start: int, stop: int, len: nat, ghost a: seq<Node>) returns (left: nat, right: nat)
    requires |a| == len
    ensures left + right <= len && Trimmed(a, start, stop) == a[left..len - right]
  {
    var first: int, last: int := start, stop;
    if first < 0 { first := len + first; }
    if last < 0 { last := len + last; }
    if first < 0 { first := 0; }
    if first > last || first >= len {
      left, right := len, 0;
    } else {
      left := first;
      if last >= len { last := len - 1; }
      right := len - last - 1;
    }
  }

  /** `t_dict`: entries in the order of their insertion, except for what deletion moves. */
  class NodeDict {
    var entries: array<Node>
    var len: nat
    var cap: nat

    ghost predicate Valid()
      reads this, entries
    {
      len <= cap == entries.Length && AllKeyVals(entries[..len])
    }

    ghost function Contents(): (es: seq<Node>)
      reads this, entries
      requires Valid()
      ensures AllKeyVals(es)
    {
      entries[..len]
    }

    /** `NewDictNode`. */
    constructor (capacity: nat)
      ensures Valid() && Contents() == [] && cap == capacity && fresh(entries)
    {
      entries := new Node[capacity];
      len, cap := 0, capacity;
    }

    /** `__obj_find`. */
    method FindEntry(key: bytes) returns (idx: nat)
      requires Valid()
      ensures idx == Find(Contents(), key)
    {
      idx := 0;
      while idx < len
        invariant idx <= len
        invariant forall j :: 0 <= j < idx ==> Contents()[j].key != key
      {
        assert Contents()[idx] == entries[idx];
        if entries[idx].key == key { break; }
        idx := idx + 1;
      }
      FindIs(Contents(), key, idx);
    }

    /** `__obj_insert`: a full buffer doubles, by at most 2^20 entries. */
    method InsertEntry(kv: Node)
      requires Valid() && kv.KeyVal?
      modifies this, entries
      ensures Valid() && Contents() == old(Contents()) + [kv] && (entries == old(entries) || fresh(entries))
      ensures cap == if old(len) < old(cap) then old(cap)
                     else if old(cap) == 0 then 1
                     else old(cap) + if old(cap) < CHUNK_SIZE then old(cap) else CHUNK_SIZE
    {
      ghost var es := Contents();
      if len >= cap {
        var a := new Node[cap + if cap == 0 then 1 else if cap < CHUNK_SIZE then cap else CHUNK_SIZE];
        forall i | 0 <= i < len { a[i] := entries[i]; }
        entries, cap := a, a.Length;
      }
      entries[len] := kv;
      len := len + 1;
      assert entries[..len] == es + [kv];
    }

    /** `Node_DictSet`: an existing entry keeps its place and takes the value. */
    method Set(key: bytes, v: Node)
      requires Valid()
      modifies this, entries
      ensures Valid() && Contents() == SetKeyVal(old(Contents()), KeyVal(key, v))
      ensures entries == old(entries) || fresh(entries)
    {
      var idx := FindEntry(key);
      if idx < len {
        ghost var es := Contents();
        entries[idx] := entries[idx].(val := v);
        assert entries[..len] == es[idx := KeyVal(key, v)];
        return;
      }
      InsertEntry(KeyVal(key, v));
    }

    /** `Node_DictSetKeyVal`: the new entry takes the place of the one with its key. */
    method SetEntry(kv: Node)
      requires Valid() && kv.KeyVal?
      modifies this, entries
      ensures Valid() && Contents() == SetKeyVal(old(Contents()), kv)
      ensures entries == old(entries) || fresh(entries)
    {
      var idx := FindEntry(kv.key);
      if idx < len {
        ghost var es := Contents();
        entries[idx] := kv;
        assert entries[..len] == es[idx := kv];
        return;
      }
      InsertEntry(kv);
    }

    /** `Node_DictDel`: the last entry fills the hole. */
    method Del(key: bytes) returns (ok: bool)
      requires Valid()
      modifies this, entries
      ensures Valid() && ok == (Find(old(Contents()), key) < old(len))
      ensures Contents() == DelKey(old(Contents()), key) && entries == old(entries) && cap == old(cap)
    {
      var idx := FindEntry(key);
      ghost var es := Contents();
      if idx == len { return false; }
      if idx < len - 1 { entries[idx] := entries[len - 1]; }
      len := len - 1;
      assert entries[..len] == DelKey(es, key);
      ok := true;
    }

    /** `Node_DictGet`. */
    method Get(key: bytes) returns (r: Option<Node>)
      requires Valid()
      ensures r == var i := Find(Contents(), key); if i < len then Some(Contents()[i].val) else None
    {
      var idx := FindEntry(key);
      r := None;
      if idx < len {
        assert Contents()[idx] == entries[idx];
        r := Some(entries[idx].val);
      }
    }
  }

  // ---- whole runs -------------------------------------------------------------------------

  datatype DictOp = Put(key: bytes, v: Node) | Remove(key: bytes)

  function AfterOp(es: seq<Node>, op: DictOp): (r: seq<Node>)
    requires AllKeyVals(es)
    ensures AllKeyVals(r)
  {
    match op
    case Put(k, v) => SetKeyVal(es, KeyVal(k, v))
    case Remove(k) => DelKey(es, k)
  }

  function AfterOps(es: seq<Node>, ops: seq<DictOp>): (r: seq<Node>)
    requires AllKeyVals(es)
    ensures AllKeyVals(r)
    decreases |ops|
  {
    if ops == [] then es else AfterOps(AfterOp(es, ops[0]), ops[1..])
  }

  function MapAfter(m: map<bytes, Node>, ops: seq<DictOp>): map<bytes, Node>
    decreases |ops|
  {
    if ops == [] then m
    else MapAfter(match ops[0] case Put(k, v) => m[k := v] case Remove(k) => m - {k}, ops[1..])
  }

  /** A dictionary stands for a finite map through every run of its operations. */
  lemma {:induction false} RunRepresents(es: seq<Node>, m: map<bytes, Node>, ops: seq<DictOp>)
    requires AllKeyVals(es) && Represents(es, m)
    ensures Represents(AfterOps(es, ops), MapAfter(m, ops))
    decreases |ops|
  {
    hide Represents;
    if ops != [] {
      match ops[0]
      case Put(k, v) =>
        SetKeyValRepresents(es, m, KeyVal(k, v));
        RunRepresents(SetKeyVal(es, KeyVal(k, v)), m[k := v], ops[1..]);
      case Remove(k) =>
        DelKeyRepresents(es, m, k);
        RunRepresents(DelKey(es, k), m - {k}, ops[1..]);
    }
  }

  /** From an empty dictionary: distinct keys, and lookups that agree with the map, after any run. */
  lemma RunFromEmpty(ops: seq<DictOp>, key: bytes)
    ensures var es, m := AfterOps([], ops), MapAfter(map[], ops);
      && DistinctKeys(es)
      && (Find(es, key) < |es| <==> key in m)
      && (key in m ==> es[Find(es, key)].val == m[key])
  {
    RunRepresents([], map[], ops);
    FindRepresents(AfterOps([], ops), MapAfter(map[], ops), key);
  }

  /** The run as it happens, in one dictionary object. */
  method RunInPlace(ops: seq<DictOp>) returns (d: NodeDict)
    ensures d.Valid() && d.Contents() == AfterOps([], ops) && d.len <= d.cap
  {
    hide AfterOps, SetKeyVal, DelKey, Find, AllKeyVals;
    d := new NodeDict(0);
    var i := 0;
    assert ops[0..] == ops;
    while i < |ops|
      invariant i <= |ops| && d.Valid() && fresh(d) && fresh(d.entries)
      invariant AfterOps(d.Contents(), ops[i..]) == AfterOps([], ops)
    {
      NextOp(d.Contents(), ops, i);
      match ops[i] {
        case Put(k, v) => d.Set(k, v);
        case Remove(k) => var _ := d.Del(k);
      }
      i := i + 1;
    }
    assert ops[i..] == [];
    NoOps(d.Contents());
  }

  lemma NextOp(es: seq<Node>, ops: seq<DictOp>, i: nat)
    requires AllKeyVals(es) && i < |ops|
    ensures AfterOps(es, ops[i..]) == AfterOps(AfterOp(es, ops[i]), ops[i + 1..])
  {
    assert ops[i..][0] == ops[i] && ops[i..][1..] == ops[i + 1..];
  }

  lemma NoOps(es: seq<Node>)
    requires AllKeyVals(es)
    ensures AfterOps(es, []) == es
  {
  }
}
