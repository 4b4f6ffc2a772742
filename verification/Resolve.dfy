/**
 Resolving a path in a tree (path.c), and writing at the place a path denotes: reading and
 writing by path form a lens.
 */
module Resolve {
  import opened Bytes
  import opened Nodes
  import opened Path

  datatype PathError = E_NOKEY | E_NOINDEX | E_BADTYPE

  /** Negative indices count from the end. */
  function Normal(i: int, len: nat): int { if i < 0 then len + i else i }

  /** `__pathNode_eval`; a null node is a null pointer. */
  function Eval(pn: PathNode, n: Node): Result<Node, PathError> {
    match n
    case Array(items) =>
      if !pn.Index? then Err(E_BADTYPE)
      else
        var i := Normal(pn.index, |items|);
        if 0 <= i < |items| then Ok(items[i]) else Err(E_NOINDEX)
    case Dict(es) =>
      if !pn.Key? || !AllKeyVals(es) then Err(E_BADTYPE)
      else
        var i := Find(es, pn.key);
        if i < |es| then Ok(es[i].val) else Err(E_NOKEY)
    case _ => Err(E_BADTYPE)
  }

  /** What a path denotes. */
  function Denotes(path: seq<PathNode>, n: Node): Result<Node, PathError> {
    if path == [] then Ok(n)
    else
      match Eval(path[0], n)
      case Err(e) => Err(e)
      case Ok(child) => Denotes(path[1..], child)
  }

  lemma {:induction false} DenotesConcat(p: seq<PathNode>, q: seq<PathNode>, n: Node)
    ensures Denotes(p + q, n) == match Denotes(p, n) case Err(e) => Err(e) case Ok(m) => Denotes(q, m)
    decreases |p|
  {
    if p == [] {
      assert p + q == q;
    } else {
      assert (p + q)[0] == p[0] && (p + q)[1..] == p[1..] + q;
      match Eval(p[0], n)
      case Err(_) =>
      case Ok(child) => DenotesConcat(p[1..], q, child);
    }
  }

  /** An index finds the element from the front or, below zero, from the end, and nothing beyond either. */
  lemma IndexFinds(items: seq<Node>, i: int32)
    ensures Denotes([Index(i)], Array(items))
         == if 0 <= i as int < |items| then Ok(items[i])
            else if -|items| <= i as int < 0 then Ok(items[|items| + i as int])
            else Err(E_NOINDEX)
  {
    OneStep(Index(i), Array(items));
  }

  /** A key finds what the dictionary maps it to. */
  lemma KeyFinds(es: seq<Node>, m: map<bytes, Node>, k: bytes)
    requires AllKeyVals(es) && Represents(es, m)
    ensures Denotes([Key(k)], Dict(es)) == if k in m then Ok(m[k]) else Err(E_NOKEY)
  {
    OneStep(Key(k), Dict(es));
    FindRepresents(es, m, k);
  }

  /** No other step finds anything in any other node. */
  lemma OtherStepsFail(s: PathNode, n: Node)
    requires !(n.Array? && s.Index?) && !(n.Dict? && AllKeyVals(n.entries) && s.Key?)
    ensures Denotes([s], n) == Err(E_BADTYPE)
  {
    OneStep(s, n);
  }

  lemma OneStep(s: PathNode, n: Node)
    ensures Denotes([s], n) == Eval(s, n)
  {
    assert [s][1..] == [];
  }

  lemma DenotesOneMore(path: seq<PathNode>, i: nat, n: Node)
    requires i < |path| && Denotes(path[..i], n).Ok?
    ensures Denotes(path[..i + 1], n) == Eval(path[i], Denotes(path[..i], n).value)
  {
    assert path[..i + 1] == path[..i] + [path[i]];
    DenotesConcat(path[..i], [path[i]], n);
    OneStep(path[i], Denotes(path[..i], n).value);
  }

  /** Once a prefix fails, so does every longer one. */
  lemma DenotesPrefix(path: seq<PathNode>, i: nat, n: Node)
    requires i <= |path| && Denotes(path[..i], n).Err?
    ensures Denotes(path, n) == Denotes(path[..i], n)
  {
    assert path == path[..i] + path[i..];
    DenotesConcat(path[..i], path[i..], n);
  }

  /** `SearchPath_Find`. */
  method SearchPathFind(path: seq<PathNode>, root: Node) returns (r: Result<Node, PathError>)
    ensures r == Denotes(path, root)
  {
    hide Eval;
    var current := root;
    var i := 0;
    assert path[..0] == [];
    while i < |path|
      invariant i <= |path| && Denotes(path[..i], root) == Ok(current)
    {
      DenotesOneMore(path, i, root);
      match Eval(path[i], current) {
        case Err(e) =>
          DenotesPrefix(path, i + 1, root);
          return Err(e);
        case Ok(n) => current := n;
      }
      i := i + 1;
    }
    assert path[..i] == path;
    r := Ok(current);
  }

  /** What `SearchPath_FindEx` reports: the node and its parent, or the level that fails and the container there. */
  datatype Located = At(n: Node, parent: Option<Node>) | Missing(err: PathError, container: Node, level: nat)

  /** The search's answer is the denotation, with the container of the last step that was tried. */
  ghost predicate LocatesIn(path: seq<PathNode>, root: Node, r: Located) {
    match r
    case At(n, parent) =>
      && Denotes(path, root) == Ok(n)
      && (path == [] ==> parent == None)
      && (path != [] ==>
        parent.Some? && Denotes(path[..|path| - 1], root) == Ok(parent.value)
          && Eval(path[|path| - 1], parent.value) == Ok(n))
    case Missing(e, container, level) =>
      && Denotes(path, root) == Err(e)
      && level < |path| && Denotes(path[..level], root) == Ok(container) && Eval(path[level], container) == Err(e)
  }

  method SearchPathFindEx(path: seq<PathNode>, root: Node) returns (r: Located)
    ensures LocatesIn(path, root, r)
  {
    hide Eval;
    var current, prev := root, None;
    var i := 0;
    assert path[..0] == [];
    while i < |path|
      invariant i <= |path| && Denotes(path[..i], root) == Ok(current)
      invariant if i == 0 then prev == None
                else && prev.Some? && Denotes(path[..i - 1], root) == Ok(prev.value)
                     && Eval(path[i - 1], prev.value) == Ok(current)
    {
      DenotesOneMore(path, i, root);
      prev := Some(current);
      match Eval(path[i], current) {
        case Err(e) =>
          DenotesPrefix(path, i + 1, root);
          return Missing(e, prev.value, i);
        case Ok(n) => current := n;
      }
      i := i + 1;
    }
    assert path[..i] == path;
    r := At(current, prev);
  }

  /** The level of a failed search is the first that fails, and no answer but one is possible. */
  lemma LocatedUnique(path: seq<PathNode>, root: Node, a: Located, b: Located)
    requires LocatesIn(path, root, a) && LocatesIn(path, root, b)
    ensures a == b
    ensures a.Missing? ==> forall i :: 0 <= i <= |path| ==> (Denotes(path[..i], root).Ok? <==> i <= a.level)
  {
    hide Eval, Denotes;
    if a.Missing? {
      FirstFailure(path, root, a);
      FirstFailure(path, root, b);
      assert path[..|path|] == path;
    }
  }

  lemma FirstFailure(path: seq<PathNode>, root: Node, a: Located)
    requires a.Missing? && LocatesIn(path, root, a)
    ensures forall i :: 0 <= i <= |path| ==> (Denotes(path[..i], root).Ok? <==> i <= a.level)
  {
    hide Eval, Denotes;
    DenotesOneMore(path, a.level, root);
    forall i | 0 <= i <= |path| ensures Denotes(path[..i], root).Ok? <==> i <= a.level {
      if i <= a.level {
        if Denotes(path[..i], root).Err? {
          assert path[..a.level][..i] == path[..i];
          DenotesPrefix(path[..a.level], i, root);
        }
      } else {
        assert path[..i][..a.level + 1] == path[..a.level + 1];
        DenotesPrefix(path[..i], a.level + 1, root);
      }
    }
  }

  // ---- one step of writing ----------------------------------------------------------------

  /** A step that can be written: an existing element, or a key of a dictionary. */
  predicate CanSet(n: Node, pn: PathNode) {
    Eval(pn, n).Ok? || Eval(pn, n) == Err(E_NOKEY)
  }

  /** `Node_DictSet`, or `Node_ArraySet` at the translated index. */
  function SetChild(n: Node, pn: PathNode, v: Node): Node
    requires CanSet(n, pn)
  {
    match n
    case Dict(es) => Dict(SetKeyVal(es, KeyVal(pn.key, v)))
    case Array(items) => Array(items[Normal(pn.index, |items|) := v])
  }

  /** Two steps to the same place of a container. */
  predicate SameStep(n: Node, p: PathNode, q: PathNode) {
    match n
    case Dict(_) => p.Key? && p == q
    case Array(items) => p.Index? && q.Index? && Normal(p.index, |items|) == Normal(q.index, |items|)
    case _ => false
  }

  lemma SetKeyValAt(es: seq<Node>, kv: Node, k: bytes)
    requires AllKeyVals(es) && kv.KeyVal?
    ensures var r := SetKeyVal(es, kv);
      && Find(r, kv.key) == Find(es, kv.key) < |r| && r[Find(r, kv.key)] == kv
      && (k != kv.key ==>
            && (Find(r, k) < |r| <==> Find(es, k) < |es|)
            && (Find(es, k) < |es| ==> Find(r, k) == Find(es, k) && r[Find(r, k)] == es[Find(es, k)]))
  {
    var r, i := SetKeyVal(es, kv), Find(es, kv.key);
    FindIs(r, kv.key, i);
    if k != kv.key {
      var j := Find(es, k);
      if j < |es| { FindIs(r, k, j); } else { FindIs(r, k, |r|); }
    }
  }

  /** Put, then get, of one step; and of every step, which sees the value only in its own place. */
  lemma StepGet(n: Node, p: PathNode, q: PathNode, v: Node)
    requires CanSet(n, p)
    ensures Eval(q, SetChild(n, p, v)) == if SameStep(n, p, q) then Ok(v) else Eval(q, n)
  {
    match n
    case Dict(es) =>
      SetKeyValAt(es, KeyVal(p.key, v), if q.Key? then q.key else p.key);
    case Array(items) =>
  }

  lemma StepGetPut(n: Node, p: PathNode)
    requires Eval(p, n).Ok?
    ensures SetChild(n, p, Eval(p, n).value) == n
  {
    match n
    case Dict(es) =>
      var i := Find(es, p.key);
      assert es[i] == KeyVal(p.key, es[i].val);
      assert es[i := es[i]] == es;
    case Array(items) =>
      var i := Normal(p.index, |items|);
      assert items[i := items[i]] == items;
  }

  lemma StepPutPut(n: Node, p: PathNode, q: PathNode, v: Node, w: Node)
    requires CanSet(n, p) && SameStep(n, p, q)
    ensures CanSet(n, q) && SameStep(SetChild(n, p, v), p, q) && CanSet(SetChild(n, p, v), q)
    ensures SetChild(SetChild(n, p, v), q, w) == SetChild(n, p, w) == SetChild(n, q, w)
  {
    StepGet(n, p, q, v);
    match n
    case Dict(es) =>
      var i := Find(es, p.key);
      SetKeyValAt(es, KeyVal(p.key, v), p.key);
      if i < |es| {
        assert es[i := KeyVal(p.key, v)][i := KeyVal(p.key, w)] == es[i := KeyVal(p.key, w)];
      } else {
        assert (es + [KeyVal(p.key, v)])[i := KeyVal(p.key, w)] == es + [KeyVal(p.key, w)];
      }
    case Array(items) =>
      var i := Normal(p.index, |items|);
      assert items[i := v][i := w] == items[i := w];
  }

  lemma SameStepEval(n: Node, p: PathNode, q: PathNode)
    requires SameStep(n, p, q)
    ensures Eval(p, n) == Eval(q, n)
  {
  }

  // ---- writing by path --------------------------------------------------------------------

  /** A path at which a value can be put: it exists, or only its last step, a key, is missing. */
  predicate CanPut(path: seq<PathNode>, n: Node) {
    path == [] ||
    if |path| == 1 then CanSet(n, path[0])
    else Eval(path[0], n).Ok? && CanPut(path[1..], Eval(path[0], n).value)
  }

  /** The tree with the value put where the path points. */
  function Put(path: seq<PathNode>, n: Node, v: Node): Node
    requires CanPut(path, n)
    decreases |path|
  {
    if path == [] then v
    else if |path| == 1 then SetChild(n, path[0], v)
    else SetChild(n, path[0], Put(path[1..], Eval(path[0], n).value, v))
  }

  /** `SearchPath_FindEx` tells exactly when SET may go on. */
  lemma {:induction false} CanPutLocated(path: seq<PathNode>, root: Node, r: Located)
    requires LocatesIn(path, root, r)
    ensures CanPut(path, root) <==> r.At? || (r.err == E_NOKEY && r.level == |path| - 1)
    decreases |path|
  {
    hide Eval;
    if |path| == 1 {
      assert path[..0] == [] && path[1..] == [];
      assert Denotes(path, root) == match Eval(path[0], root) case Err(e) => Err(e) case Ok(c) => Denotes([], c);
    } else if |path| > 1 {
      match Eval(path[0], root)
      case Err(e) =>
        FailsAtOnce(path, root, r);
      case Ok(child) =>
        LocatedBelow(path, root, r);
        CanPutLocated(path[1..], child, if r.At? then r else r.(level := r.level - 1));
    }
  }

  lemma FailsAtOnce(path: seq<PathNode>, root: Node, r: Located)
    requires |path| > 1 && LocatesIn(path, root, r) && Eval(path[0], root).Err?
    ensures r.Missing? && r.level == 0
  {
    hide Eval;
    assert path[..1] == [path[0]] && path[1..][..0] == [];
    assert Denotes([path[0]], root).Err?;
  }

  lemma LocatedBelow(path: seq<PathNode>, root: Node, r: Located)
    requires |path| > 1 && LocatesIn(path, root, r) && Eval(path[0], root).Ok?
    ensures r.Missing? ==> r.level > 0
    ensures LocatesIn(path[1..], Eval(path[0], root).value, if r.At? then r else r.(level := r.level - 1))
  {
    hide Eval;
    var k := if r.At? then |path| - 1 else r.level;
    if k > 0 {
      assert path[..k][1..] == path[1..][..k - 1];
      assert path[..k][0] == path[0];
    }
  }

  lemma CanPutChild(path: seq<PathNode>, n: Node)
    requires path != [] && CanPut(path, n)
    ensures CanSet(n, path[0])
  {
  }

  /** Put, then get. */
  lemma {:induction false} PutGet(path: seq<PathNode>, n: Node, v: Node)
    requires CanPut(path, n)
    ensures Denotes(path, Put(path, n, v)) == Ok(v)
    decreases |path|
  {
    hide Eval, SetChild;
    if path != [] {
      CanPutChild(path, n);
      SameAsItself(path, n);
      if |path| == 1 {
        StepGet(n, path[0], path[0], v);
        assert path[1..] == [];
      } else {
        var child := Eval(path[0], n).value;
        PutGet(path[1..], child, v);
        StepGet(n, path[0], path[0], Put(path[1..], child, v));
      }
    }
  }

  lemma SameAsItself(path: seq<PathNode>, n: Node)
    requires path != [] && CanSet(n, path[0])
    ensures SameStep(n, path[0], path[0])
  {
  }

  /** Get, then put what was there: nothing changes. */
  lemma {:induction false} GetPut(path: seq<PathNode>, n: Node)
    requires Denotes(path, n).Ok?
    ensures CanPut(path, n) && Put(path, n, Denotes(path, n).value) == n
    decreases |path|
  {
    hide Eval, SetChild;
    if path != [] {
      StepGetPut(n, path[0]);
      GetPut(path[1..], Eval(path[0], n).value);
    }
  }

  /** The last put wins. */
  lemma {:induction false} PutPut(path: seq<PathNode>, n: Node, v: Node, w: Node)
    requires CanPut(path, n)
    ensures CanPut(path, Put(path, n, v)) && Put(path, Put(path, n, v), w) == Put(path, n, w)
    decreases |path|
  {
    hide Eval, SetChild, SameStep;
    if path != [] {
      CanPutChild(path, n);
      SameAsItself(path, n);
      var p := path[0];
      if |path| == 1 {
        StepPutPut(n, p, p, v, w);
        StepGet(n, p, p, v);
      } else {
        var child := Eval(p, n).value;
        PutPut(path[1..], child, v, w);
        var a, b := Put(path[1..], child, v), Put(path[1..], child, w);
        StepGet(n, p, p, a);
        StepPutPut(n, p, p, a, b);
      }
    }
  }

  /** The resolved steps of q part from those of p somewhere along p. */
  predicate Apart(p: seq<PathNode>, q: seq<PathNode>, n: Node)
    decreases |p|
  {
    && p != [] && q != []
    && if SameStep(n, p[0], q[0]) then Eval(p[0], n).Ok? && Apart(p[1..], q[1..], Eval(p[0], n).value) else true
  }

  /** A put leaves every path alone that is not prefix-related to it, whether it resolves or fails. */
  lemma {:induction false} PutApart(p: seq<PathNode>, q: seq<PathNode>, n: Node, v: Node)
    requires CanPut(p, n) && Apart(p, q, n)
    ensures Denotes(q, Put(p, n, v)) == Denotes(q, n)
    decreases |p|
  {
    hide Eval, SetChild, SameStep;
    CanPutChild(p, n);
    if |p| == 1 {
      assert p[1..] == [];
      StepGet(n, p[0], q[0], v);
    } else {
      var child := Eval(p[0], n).value;
      StepGet(n, p[0], q[0], Put(p[1..], child, v));
      if SameStep(n, p[0], q[0]) {
        SameStepEval(n, p[0], q[0]);
        PutApart(p[1..], q[1..], child, v);
      }
    }
  }

  /** Below the place of the put, paths read the new value. */
  lemma PutBelow(p: seq<PathNode>, q: seq<PathNode>, n: Node, v: Node)
    requires CanPut(p, n)
    ensures Denotes(p + q, Put(p, n, v)) == Denotes(q, v)
  {
    PutGet(p, n, v);
    DenotesConcat(p, q, Put(p, n, v));
  }

  /** Putting by a long path is putting, at its beginning, the updated subtree found there. */
  lemma {:induction false} PutConcat(p: seq<PathNode>, q: seq<PathNode>, n: Node, v: Node)
    requires Denotes(p, n).Ok?
    ensures CanPut(p, n) && (CanPut(p + q, n) <==> CanPut(q, Denotes(p, n).value))
    ensures CanPut(p + q, n) ==> Put(p + q, n, v) == Put(p, n, Put(q, Denotes(p, n).value, v))
    decreases |p|
  {
    hide Eval, SetChild;
    GetPut(p, n);
    if p == [] {
      assert p + q == q;
    } else {
      assert (p + q)[0] == p[0] && (p + q)[1..] == p[1..] + q;
      var child := Eval(p[0], n).value;
      PutConcat(p[1..], q, child, v);
      if q == [] {
        assert p + q == p;
      } else if |p| == 1 {
        assert p[1..] + q == q && p[1..] == [];
      }
    }
  }

  /** Above it, they read the old subtree with the put carried out in it. */
  lemma PutAbove(p: seq<PathNode>, q: seq<PathNode>, n: Node, v: Node)
    requires Denotes(p, n).Ok? && CanPut(p + q, n)
    ensures CanPut(q, Denotes(p, n).value)
    ensures Denotes(p, Put(p + q, n, v)) == Ok(Put(q, Denotes(p, n).value, v))
  {
    PutConcat(p, q, n, v);
    PutGet(p, n, Put(q, Denotes(p, n).value, v));
  }

  /** Setting a child of the parent that `SearchPath_FindEx` returns is putting by the whole path. */
  lemma PutThroughParent(path: seq<PathNode>, root: Node, r: Located, v: Node)
    requires path != [] && CanPut(path, root) && LocatesIn(path, root, r)
    ensures var parent := if r.At? then r.parent.value else r.container;
      var last := path[|path| - 1];
      CanSet(parent, last) && CanPut(path[..|path| - 1], root)
      && Put(path, root, v) == Put(path[..|path| - 1], root, SetChild(parent, last, v))
  {
    hide Denotes, Eval, SetChild;
    CanPutLocated(path, root, r);
    var front, last := path[..|path| - 1], path[|path| - 1];
    assert path == front + [last];
    PutConcat(front, [last], root, v);
  }

  // ---- well-formedness --------------------------------------------------------------------

  lemma EachWellFormed(ns: seq<Node>, i: nat)
    requires AllWellFormed(ns) && i < |ns|
    ensures WellFormed(ns[i]) && (ns[i].KeyVal? ==> IsValue(ns[i].val))
  {
  }

  lemma TogetherWellFormed(ns: seq<Node>)
    requires forall i :: 0 <= i < |ns| ==> WellFormed(ns[i])
    ensures AllWellFormed(ns)
  {
  }

  lemma EvalWellFormed(pn: PathNode, n: Node)
    requires IsValue(n) && Eval(pn, n).Ok?
    ensures IsValue(Eval(pn, n).value)
  {
    match n
    case Dict(es) => EachWellFormed(es, Find(es, pn.key));
    case Array(items) => EachWellFormed(items, Normal(pn.index, |items|));
  }

  lemma SetChildWellFormed(n: Node, pn: PathNode, v: Node)
    requires IsValue(n) && IsValue(v) && CanSet(n, pn) && (pn.Key? ==> NUL !in pn.key)
    ensures IsValue(SetChild(n, pn, v))
  {
    match n
    case Dict(es) =>
      var kv := KeyVal(pn.key, v);
      assert WellFormed(kv);
      SetKeyValDistinct(es, kv);
      SetKeyValElements(es, kv);
    case Array(items) =>
      var r := items[Normal(pn.index, |items|) := v];
      forall i | 0 <= i < |r| ensures WellFormed(r[i]) && !r[i].KeyVal? {
        if r[i] != v { EachWellFormed(items, i); }
      }
      TogetherWellFormed(r);
  }

  lemma SetKeyValElements(es: seq<Node>, kv: Node)
    requires AllKeyVals(es) && AllWellFormed(es) && kv.KeyVal? && WellFormed(kv)
    ensures AllWellFormed(SetKeyVal(es, kv))
  {
    hide WellFormed, AllWellFormed;
    var r := SetKeyVal(es, kv);
    forall i | 0 <= i < |r| ensures WellFormed(r[i]) {
      if i < |es| && r[i] == es[i] { EachWellFormed(es, i); }
    }
    TogetherWellFormed(r);
  }

  /** A put of a well-formed value keeps the document well-formed. */
  lemma {:induction false} PutWellFormed(path: seq<PathNode>, n: Node, v: Node)
    requires IsValue(n) && IsValue(v) && CanPut(path, n)
    requires forall i :: 0 <= i < |path| && path[i].Key? ==> NUL !in path[i].key
    ensures IsValue(Put(path, n, v))
    decreases |path|
  {
    hide IsValue, SetChild, Eval;
    if path != [] {
      CanPutChild(path, n);
      if |path| > 1 {
        EvalWellFormed(path[0], n);
        PutWellFormed(path[1..], Eval(path[0], n).value, v);
        SetChildWellFormed(n, path[0], Put(path[1..], Eval(path[0], n).value, v));
      } else {
        SetChildWellFormed(n, path[0], v);
      }
    }
  }
}
