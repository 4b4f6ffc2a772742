/**
 What the array operations of object.c and ARRTRIM compute, as functions on sequences.
 */
module Splices {

  /** Where `Node_ArrayInsert` inserts: negative indices count from the end, then both ends clip. */
  function InsertIndex(index: int, len: nat): (i: nat)
    ensures i <= len
  {
    var j := if index < 0 then len + index else index;
    if j < 0 then 0 else if j > len then len else j
  }

  function Inserted<T>(a: seq<T>, index: int, s: seq<T>): seq<T> {
    var i := InsertIndex(index, |a|);
    a[..i] + s + a[i..]
  }

  /** The first element `Node_ArrayDelRange` removes: an index behind the end means the last element. */
  function DelStart(index: int, len: nat): (i: nat)
    requires 0 <= index + len && len > 0
    ensures i < len
  {
    if index < 0 then len + index else if index < len then index else len - 1
  }

  function Deleted<T>(a: seq<T>, index: int, count: int): seq<T>
    requires 0 <= index + |a|
  {
    if count <= 0 || a == [] then a
    else
      var start := DelStart(index, |a|);
      a[..start] + if start + count < |a| then a[start + count..] else []
  }

  /** Deleting from the place of an insertion as many elements as it inserted restores the array. */
  lemma DeleteInserted<T>(a: seq<T>, index: int, s: seq<T>)
    ensures Deleted(Inserted(a, index, s), InsertIndex(index, |a|), |s|) == a
  {
    var i, r := InsertIndex(index, |a|), Inserted(a, index, s);
    if s == [] {
      assert r == a;
    } else {
      assert r[..i] == a[..i];
      assert i + |s| < |r| ==> r[i + |s|..] == a[i..];
      assert a == a[..i] + a[i..];
    }
  }

  /** A deletion inside the array, put back where it was. */
  lemma InsertDeleted<T>(a: seq<T>, index: nat, count: nat)
    requires index + count <= |a|
    ensures Inserted(Deleted(a, index, count), index, a[index..index + count]) == a
  {
    var d := Deleted(a, index, count);
    if count > 0 {
      assert d[..index] == a[..index] && d[index..] == a[index + count..];
    } else {
      assert d == a && a[index..index] == [];
    }
    assert a == a[..index] + a[index..index + count] + a[index + count..];
  }

  /** What an index behind the end does: it deletes the last element, and only that. */
  lemma DeleteBehindEnd<T>(a: seq<T>, index: nat, count: nat)
    requires a != [] && index >= |a| && count > 0
    ensures Deleted(a, index, count) == a[..|a| - 1]
  {
  }

  /** What ARRTRIM keeps: the elements from start to stop inclusive. */
  function Trimmed<T>(a: seq<T>, start: int, stop: int): seq<T> {
    var from := if start < 0 then |a| + start else start;
    var to := if stop < 0 then |a| + stop else stop;
    var first := if from < 0 then 0 else from;
    if first > to || first >= |a| then [] else a[first..if to < |a| then to + 1 else |a|]
  }

  /** ARRTRIM's two deletions, of `left` elements in front and `right` behind. */
  lemma TwoDeletions<T>(a: seq<T>, left: nat, right: nat)
    requires left + right <= |a|
    ensures right <= |Deleted(a, 0, left)|
    ensures Deleted(Deleted(a, 0, left), 0 - right, right) == a[left..|a| - right]
  {
    var d := Deleted(a, 0, left);
    assert d == a[left..];
    if right > 0 {
      assert DelStart(0 - right, |d|) == |d| - right;
      assert d[..|d| - right] == a[left..|a| - right];
    } else {
      assert a[left..|a|] == a[left..];
    }
  }

  /** Where the new elements go: in front of the place the index stands for, or at the end that is nearer to it. */
  lemma InsertedAt<T>(a: seq<T>, index: int, s: seq<T>)
    ensures Inserted(a, index, s) ==
      if index > |a| then a + s
      else if 0 <= index then a[..index] + s + a[index..]
      else if -|a| <= index then a[..|a| + index] + s + a[|a| + index..]
      else s + a
  {
    assert a[..|a|] + s + a[|a|..] == a + s && a[..0] + s + a[0..] == s + a;
  }

  /** Which elements go: as many as there are from the place on, up to count. */
  lemma DeletedFrom<T>(a: seq<T>, index: int, count: nat)
    requires -|a| <= index && index < |a|
    ensures var start := if index < 0 then |a| + index else index;
      Deleted(a, index, count) == a[..start] + a[if start + count < |a| then start + count else |a|..]
  {
    var start := if index < 0 then |a| + index else index;
    if count == 0 { assert a == a[..start] + a[start..]; }
  }
}
