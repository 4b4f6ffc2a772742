/** Walks that only append what Begin writes. */
module Preorder {
  // What they leave is the nodes' headers in preorder. The RDB writer and the RESP writer are both
  // of this kind.

  import opened Nodes
  import opened Serializer

  /** xBegin is 0xff; there is no End and no delimiter. */
  const BEGIN_ONLY := Masks(ALL_TYPES, {}, {})

  function Flatten<T>(head: Node -> seq<T>, n: Node): seq<T>
    decreases n, 1
  {
    head(n) +
    match n
    case Dict(es) => FlattenAll(head, es)
    case Array(items) => FlattenAll(head, items)
    case KeyVal(_, v) => Flatten(head, v)
    case _ => []
  }

  function FlattenAll<T>(head: Node -> seq<T>, ns: seq<Node>): seq<T>
    decreases ns, 0
  {
    if ns == [] then [] else Flatten(head, ns[0]) + FlattenAll(head, ns[1..])
  }

  /** The Begin callback: append the node's header to the stream. */
  function Appender<T>(head: Node -> seq<T>): (seq<T>, Callback) -> seq<T> {
    (out: seq<T>, c: Callback) => if c.Begin? then out + head(c.n) else out
  }

  function CallsOfAll(ns: seq<Node>): seq<Callback> { CallsEach(ns, [], BEGIN_ONLY) }

  lemma CallsRestIsEach(ns: seq<Node>)
    ensures CallsRest(ns, [], BEGIN_ONLY) == CallsOfAll(ns)
  {
    if ns != [] {
      assert [] + Calls(ns[0], BEGIN_ONLY) == Calls(ns[0], BEGIN_ONLY);
    }
  }

  lemma CallsUnmasked(n: Node)
    ensures Calls(n, BEGIN_ONLY) == [Begin(n)] + CallsOfAll(Children(n))
  {
    CallsUnfold(n, BEGIN_ONLY);
    assert BeginOf(n, BEGIN_ONLY) == [Begin(n)] && EndOf(n, BEGIN_ONLY) == [] && DelimOf(n, BEGIN_ONLY) == [];
  }

  lemma FlattenChildren<T>(head: Node -> seq<T>, n: Node)
    ensures Flatten(head, n) == head(n) + FlattenAll(head, Children(n))
  {
    if n.KeyVal? {
      assert FlattenAll(head, [n.val]) == Flatten(head, n.val) + FlattenAll(head, []);
    }
  }

  lemma {:induction false} FoldFlatten<T>(head: Node -> seq<T>, out: seq<T>, n: Node)
    ensures Fold(Appender(head), out, Calls(n, BEGIN_ONLY)) == out + Flatten(head, n)
    decreases n, 1
  {
    hide Calls, Fold, Flatten, FlattenAll, CallsOfAll;
    var f := Appender(head);
    CallsUnmasked(n);
    FlattenChildren(head, n);
    FoldConcat(f, out, [Begin(n)], CallsOfAll(Children(n)));
    FoldBegin(head, out, n);
    ChildrenSmaller(n);
    FoldFlattenAll(head, out + head(n), n, Children(n));
    assert out + head(n) + FlattenAll(head, Children(n)) == out + (head(n) + FlattenAll(head, Children(n)));
  }

  lemma ChildrenSmaller(n: Node)
    ensures forall i :: 0 <= i < |Children(n)| ==> Children(n)[i] < n
  {
  }

  lemma FoldBegin<T>(head: Node -> seq<T>, out: seq<T>, n: Node)
    ensures Fold(Appender(head), out, [Begin(n)]) == out + head(n)
  {
    assert [Begin(n)][1..] == [];
  }

  lemma {:induction false} FoldFlattenAll<T>(head: Node -> seq<T>, out: seq<T>, n: Node, ns: seq<Node>)
    requires forall i :: 0 <= i < |ns| ==> ns[i] < n
    ensures Fold(Appender(head), out, CallsOfAll(ns)) == out + FlattenAll(head, ns)
    decreases n, 0, |ns|
  {
    hide Calls, Fold, Flatten;
    var f := Appender(head);
    if ns == [] {
      FoldNone(head, out);
      assert out + [] == out;
    } else {
      CallsRestIsEach(ns[1..]);
      FoldConcat(f, out, Calls(ns[0], BEGIN_ONLY), CallsOfAll(ns[1..]));
      FoldFlatten(head, out, ns[0]);
      FoldFlattenAll(head, out + Flatten(head, ns[0]), n, ns[1..]);
      assert out + Flatten(head, ns[0]) + FlattenAll(head, ns[1..])
        == out + (Flatten(head, ns[0]) + FlattenAll(head, ns[1..]));
    }
  }

  lemma FoldNone<T>(head: Node -> seq<T>, out: seq<T>)
    ensures Fold(Appender(head), out, []) == out
  {
  }

  /** The walk of the tree with such a callback. */
  method Write<T>(root: Node, head: Node -> seq<T>, stream: seq<T>) returns (out: seq<T>)
    ensures out == stream + Flatten(head, root)
  {
    out := NodeSerializer(root, BEGIN_ONLY, Appender(head), stream);
    FoldFlatten(head, stream, root);
  }
}
