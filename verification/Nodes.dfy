/**
 The document tree of object.h as values. A null pointer is `Null`; a dictionary holds its
 entries as nodes, as the source does, so that a tree can also be malformed.
 */
module Nodes {
  import opened Bytes
  import opened Decimal

  /** The bit pattern of a double: opaque, only copied. */
  type double = x: int | 0 <= x < 0x1_0000_0000_0000_0000

  datatype Node =
    | Null
    | Boolean(boolval: bool)
    | Integer(intval: int64)
    | Number(numval: double)
    | Text(strval: bytes)
    | KeyVal(key: bytes, val: Node)
    | Dict(entries: seq<Node>)
    | Array(items: seq<Node>)

  // ---- dictionaries ----------------------------------------------------------------------

  predicate AllKeyVals(es: seq<Node>) {
    forall i :: 0 <= i < |es| ==> es[i].KeyVal?
  }

  /** `__obj_find`: the position of the first entry with this key, or the length. */
  function Find(es: seq<Node>, key: bytes): (i: nat)
    requires AllKeyVals(es)
    ensures i <= |es|
    ensures i < |es| ==> es[i].key == key
    ensures forall j :: 0 <= j < i ==> es[j].key != key
  {
    if es == [] || es[0].key == key then 0 else 1 + Find(es[1..], key)
  }

  /** `Node_DictSetKeyVal`: replace in position, or append. */
  function SetKeyVal(es: seq<Node>, kv: Node): (r: seq<Node>)
    requires AllKeyVals(es) && kv.KeyVal?
    ensures AllKeyVals(r)
  {
    var i := Find(es, kv.key);
    if i < |es| then es[i := kv] else es + [kv]
  }

  /**
   The first word of such a node is zero, so that `Node_DictSetKeyVal` finds a null key in it: it
   refuses the node, and its callers go on without it.
   */
  predicate NullKey(n: Node) { n == Boolean(false) || n == Integer(0) || n == Number(0) }

  /** `Node_DictDel`: the last entry fills the hole. */
  function DelKey(es: seq<Node>, key: bytes): (r: seq<Node>)
    requires AllKeyVals(es)
    ensures AllKeyVals(r)
  {
    var i := Find(es, key);
    if i == |es| then es
    else if i < |es| - 1 then es[i := es[|es| - 1]][..|es| - 1]
    else es[..i]
  }

  predicate DistinctKeys(es: seq<Node>)
    requires AllKeyVals(es)
  {
    forall i, j :: 0 <= i < j < |es| ==> es[i].key != es[j].key
  }

  /** The entry list stands for the finite map m. */
  ghost predicate Represents(es: seq<Node>, m: map<bytes, Node>)
    requires AllKeyVals(es)
  {
    && DistinctKeys(es)
    && (forall i :: 0 <= i < |es| ==> es[i].key in m && m[es[i].key] == es[i].val)
    && (forall k :: k in m ==> exists i :: 0 <= i < |es| && es[i].key == k)
  }

  lemma FindRepresents(es: seq<Node>, m: map<bytes, Node>, key: bytes)
    requires AllKeyVals(es) && Represents(es, m)
    ensures Find(es, key) < |es| <==> key in m
    ensures key in m ==> es[Find(es, key)].val == m[key]
  {
  }

  /** The first entry with the key is what `Find` finds. */
  lemma FindIs(es: seq<Node>, k: bytes, i: nat)
    requires AllKeyVals(es) && i <= |es| && (i < |es| ==> es[i].key == k) && forall j :: 0 <= j < i ==> es[j].key != k
    ensures Find(es, k) == i
  {
  }

  lemma FindAt(es: seq<Node>, i: nat)
    requires AllKeyVals(es) && DistinctKeys(es) && i < |es|
    ensures Find(es, es[i].key) == i
  {
  }

  lemma SetKeyValRepresents(es: seq<Node>, m: map<bytes, Node>, kv: Node)
    requires AllKeyVals(es) && Represents(es, m) && kv.KeyVal?
    ensures Represents(SetKeyVal(es, kv), m[kv.key := kv.val])
  {
    hide SetKeyVal, Find;
    var r, i, n := SetKeyVal(es, kv), Find(es, kv.key), m[kv.key := kv.val];
    SetKeyValDistinct(es, kv);
    forall k | k in n ensures Find(r, k) < |r| {
      FindAt(r, if k == kv.key then i else Find(es, k));
    }
    forall j | 0 <= j < |r| ensures r[j].key in n && n[r[j].key] == r[j].val {
      assert j != i ==> r[j] == es[j];
    }
  }

  lemma SetKeyValDistinct(es: seq<Node>, kv: Node)
    requires AllKeyVals(es) && DistinctKeys(es) && kv.KeyVal?
    ensures DistinctKeys(SetKeyVal(es, kv))
    ensures var r, i := SetKeyVal(es, kv), Find(es, kv.key);
      && |r| == (if i < |es| then |es| else |es| + 1) && r[i] == kv
      && forall j :: 0 <= j < |es| && j != i ==> r[j] == es[j] && es[j].key != kv.key
  {
    var i := Find(es, kv.key);
    assert i < |es| ==> forall j :: 0 <= j < |es| && j != i ==> es[j].key != es[i].key;
  }

  lemma DelKeyRepresents(es: seq<Node>, m: map<bytes, Node>, key: bytes)
    requires AllKeyVals(es) && Represents(es, m)
    ensures Represents(DelKey(es, key), m - {key})
    ensures |DelKey(es, key)| == if key in m then |es| - 1 else |es|
  {
    hide DelKey, Find, DistinctKeys;
    FindRepresents(es, m, key);
    if key in m {
      DeletedRepresents(es, m, key);
    } else {
      DelKeyMissing(es, key);
      assert m - {key} == m;
    }
  }

  lemma DelKeyMissing(es: seq<Node>, key: bytes)
    requires AllKeyVals(es) && Find(es, key) == |es|
    ensures DelKey(es, key) == es
  {
  }

  lemma DeletedRepresents(es: seq<Node>, m: map<bytes, Node>, key: bytes)
    requires AllKeyVals(es) && Represents(es, m) && Find(es, key) < |es|
    ensures Represents(DelKey(es, key), m - {key}) && |DelKey(es, key)| == |es| - 1
  {
    hide DelKey, Find, DistinctKeys;
    var r, n := DelKey(es, key), m - {key};
    DelKeyDistinct(es, key);
    forall k | k in n ensures Find(r, k) < |r| {
      DeletedFinds(es, m, key, k);
    }
    forall j | 0 <= j < |r| ensures r[j].key in n && n[r[j].key] == r[j].val {
      DeletedEntry(es, m, key, j);
    }
  }

  /** Another key that was found is found still, in its place or in the hole. */
  lemma DeletedFinds(es: seq<Node>, m: map<bytes, Node>, key: bytes, k: bytes)
    requires AllKeyVals(es) && Represents(es, m) && Find(es, key) < |es| && k in m && k != key
    ensures Find(DelKey(es, key), k) < |DelKey(es, key)|
  {
    hide DelKey, Find, DistinctKeys;
    DelKeyDistinct(es, key);
    var j := Find(es, k);
    FindAt(DelKey(es, key), if j == |es| - 1 then Find(es, key) else j);
  }

  lemma DeletedEntry(es: seq<Node>, m: map<bytes, Node>, key: bytes, j: nat)
    requires AllKeyVals(es) && Represents(es, m) && Find(es, key) < |es| && j < |DelKey(es, key)|
    ensures var e := DelKey(es, key)[j]; e.key in m && e.key != key && m[e.key] == e.val
  {
    hide DelKey, Find, DistinctKeys;
    DelKeyDistinct(es, key);
    assert DelKey(es, key)[j] == es[if j == Find(es, key) then |es| - 1 else j];
  }

  lemma DelKeyDistinct(es: seq<Node>, key: bytes)
    requires AllKeyVals(es) && DistinctKeys(es) && Find(es, key) < |es|
    ensures var r, i := DelKey(es, key), Find(es, key);
      && DistinctKeys(r) && |r| == |es| - 1
      && (forall j :: 0 <= j < |r| ==> r[j] == if j == i then es[|es| - 1] else es[j])
      && (forall j :: 0 <= j < |r| ==> r[j].key != key)
  {
    var i := Find(es, key);
    assert forall j :: 0 <= j < |es| && j != i ==> es[j].key != es[i].key;
  }

  /** A map determines what every lookup finds, so two lists for one map answer alike. */
  lemma RepresentsUnique(es: seq<Node>, m: map<bytes, Node>, n: map<bytes, Node>)
    requires AllKeyVals(es) && Represents(es, m) && Represents(es, n)
    ensures m == n
  {
    assert forall k :: k in m ==> es[Find(es, k)].key == k;
    assert forall k :: k in n ==> es[Find(es, k)].key == k;
  }

  // ---- well-formed trees ------------------------------------------------------------------

  /** Dictionaries hold only entries, with distinct keys and no NUL in them; nothing else holds an entry. */
  predicate WellFormed(n: Node)
    decreases n, 1
  {
    match n
    case Dict(es) => AllKeyVals(es) && DistinctKeys(es) && AllWellFormed(es)
    case Array(items) => (forall i :: 0 <= i < |items| ==> !items[i].KeyVal?) && AllWellFormed(items)
    case KeyVal(k, v) => NUL !in k && !v.KeyVal? && WellFormed(v)
    case _ => true
  }

  predicate AllWellFormed(ns: seq<Node>)
    decreases ns, 0
  {
    forall i :: 0 <= i < |ns| ==> WellFormed(ns[i])
  }

  /** A well-formed value, as a document root or an element: anything but a bare entry. */
  predicate IsValue(n: Node) { !n.KeyVal? && WellFormed(n) }

  /** The nodes allocated for a tree; a null is no node. */
  function Size(n: Node): nat
    decreases n, 1
  {
    match n
    case Null => 0
    case Dict(es) => 1 + TotalSize(es)
    case Array(items) => 1 + TotalSize(items)
    case KeyVal(_, v) => 1 + Size(v)
    case _ => 1
  }

  function TotalSize(ns: seq<Node>): nat
    decreases ns, 0
  {
    if ns == [] then 0 else Size(ns[0]) + TotalSize(ns[1..])
  }

  lemma {:induction false} TotalSizeConcat(a: seq<Node>, b: seq<Node>)
    ensures TotalSize(a + b) == TotalSize(a) + TotalSize(b)
  {
    if a == [] {
      assert a + b == b;
    } else {
      assert (a + b)[1..] == a[1..] + b;
      TotalSizeConcat(a[1..], b);
    }
  }

  lemma TotalSizeUpdate(a: seq<Node>, i: nat, n: Node)
    requires i < |a|
    ensures TotalSize(a[i := n]) + Size(a[i]) == TotalSize(a) + Size(n)
  {
    assert a == a[..i] + ([a[i]] + a[i + 1..]);
    assert a[i := n] == a[..i] + ([n] + a[i + 1..]);
    TotalSizeConcat(a[..i], [a[i]] + a[i + 1..]);
    TotalSizeConcat(a[..i], [n] + a[i + 1..]);
    assert ([a[i]] + a[i + 1..])[1..] == ([n] + a[i + 1..])[1..];
  }
}
