/** What the commands do to the document, in terms of what paths denote. */
module Laws {
  // Each law looks at the document before and after: what the path's container, or its target, is
  // then, what is left alone, and the reply.

  import opened Bytes
  import opened Cache
  import opened Commands
  import opened Nodes
  import opened Path
  import G = PathGrammar
  import opened Printer
  import opened Resolve
  import opened Splices

  // ---- places -------------------------------------------------------------------------------

  /** The path parses as these steps, of which there are some. */
  predicate Leads(path: bytes, nodes: seq<PathNode>) {
    ParsePath(path) == Steps(nodes) && nodes != [] && nodes != [Root]
  }

  function Front(nodes: seq<PathNode>): seq<PathNode>
    requires nodes != []
  {
    nodes[..|nodes| - 1]
  }

  function Last(nodes: seq<PathNode>): PathNode
    requires nodes != []
  {
    nodes[|nodes| - 1]
  }

  /** The place an index stands for. */
  predicate IsPlace(index: int, len: nat, j: int) { j == if 0 <= index then index else len + index }

  /** Every path that is not along, above or below the given one denotes what it did. */
  ghost predicate OthersKept(p: seq<PathNode>, before: Node, after: Node) {
    forall q: seq<PathNode> :: Apart(p, q, before) ==> Denotes(q, after) == Denotes(q, before)
  }

  lemma PutKeepsOthers(p: seq<PathNode>, n: Node, v: Node)
    requires CanPut(p, n)
    ensures OthersKept(p, n, Put(p, n, v))
  {
    forall q: seq<PathNode> | Apart(p, q, n) ensures Denotes(q, Put(p, n, v)) == Denotes(q, n) {
      PutApart(p, q, n, v);
    }
  }

  /** The container of a path that denotes something. */
  lemma Container(nodes: seq<PathNode>, n: Node)
    requires nodes != [] && Denotes(nodes, n).Ok?
    ensures Denotes(Front(nodes), n).Ok?
    ensures var c := Denotes(Front(nodes), n).value;
      && Denotes([Last(nodes)], c) == Denotes(nodes, n)
      && ((c.Dict? && Last(nodes).Key? && AllKeyVals(c.entries)) || (c.Array? && Last(nodes).Index?))
  {
    hide Denotes;
    var front, last := Front(nodes), Last(nodes);
    assert nodes == front + [last];
    DenotesConcat(front, [last], n);
    var c := Denotes(front, n).value;
    if !((c.Dict? && last.Key? && AllKeyVals(c.entries)) || (c.Array? && last.Index?)) { OtherStepsFail(last, c); }
  }

  /** A spelling of up to 1024 steps is the path of these steps; a longer one is too long. */
  lemma PathLength(ps: seq<G.Spelled>, nodes: seq<PathNode>)
    requires G.Spelling(false, ps) && G.Texts(ps) != [DOT]
    requires forall i :: 0 <= i < |ps| ==> G.Proper(ps[i])
    requires G.Meaning(ps, nodes)
    ensures ParsePath(G.Texts(ps)) == if |ps| <= 1024 then Steps(nodes) else TooLong
  {
    hide Tokens, G.Spelling, G.Texts, G.Proper;
    G.SpellingParses(ps, nodes);
  }

  // ---- DEL ------------------------------------------------------------------------------------

  /** The container without what the last step finds in it. */
  ghost predicate Removed(before: Node, last: PathNode, after: Node) {
    match last
    case Key(k) =>
      && before.Dict? && after.Dict? && AllKeyVals(before.entries) && AllKeyVals(after.entries)
      && forall m: map<bytes, Node> :: Represents(before.entries, m) ==> Represents(after.entries, m - {k})
    case Index(i) =>
      && before.Array?
      && exists j: nat :: IsPlace(i, |before.items|, j) && j < |before.items|
           && after == Array(before.items[..j] + before.items[j + 1..])
    case Root => false
  }

  /** DEL of what a path denotes, below the root. */
  lemma DelRemoves(setup: Setup, w: World, path: bytes, given: bool, nodes: seq<PathNode>)
    requires w.root.Some? && IsValue(w.root.value) && Leads(path, nodes) && Denotes(nodes, w.root.value).Ok?
    ensures var (w', reply) := Exec(setup, w, Del(path, given));
      && w'.root.Some? && reply == Count(if given then 1 else 0)
      && Denotes(Front(nodes), w.root.value).Ok? && Denotes(Front(nodes), w'.root.value).Ok?
      && Removed(Denotes(Front(nodes), w.root.value).value, Last(nodes), Denotes(Front(nodes), w'.root.value).value)
      && (Last(nodes).Key? ==> Denotes(nodes, w'.root.value) == Err(E_NOKEY))
      && OthersKept(Front(nodes), w.root.value, w'.root.value)
  {
    hide Denotes, Put, CanPut, ParsePath, IsValue, Without, Removed;
    var root, front, last := w.root.value, Front(nodes), Last(nodes);
    Container(nodes, root);
    TargetCanPut(nodes, root);
    GetPut(front, root);
    var before := Denotes(front, root).value;
    var after := Without(before, last);
    PutGet(front, root, after);
    PutKeepsOthers(front, root, after);
    PartValue(front, root);
    WithoutRemoves(before, last);
    var root' := Put(front, root, after);
    assert nodes == front + [last];
    DenotesConcat(front, [last], root');
    assert Exec(setup, w, Del(path, given)) == (Cleared(w, root', path), Count(Deletions(given)));
  }

  /** A part of a well-formed document is well formed. */
  lemma {:induction false} PartValue(path: seq<PathNode>, n: Node)
    requires IsValue(n) && Denotes(path, n).Ok?
    ensures IsValue(Denotes(path, n).value)
    decreases |path|
  {
    hide IsValue, Eval;
    if path != [] {
      EvalWellFormed(path[0], n);
      PartValue(path[1..], Eval(path[0], n).value);
    }
  }

  lemma WithoutRemoves(before: Node, last: PathNode)
    requires IsValue(before) && Denotes([last], before).Ok?
    requires (before.Dict? && last.Key? && AllKeyVals(before.entries)) || (before.Array? && last.Index?)
    ensures Removed(before, last, Without(before, last))
    ensures last.Key? ==> Denotes([last], Without(before, last)) == Err(E_NOKEY)
  {
    hide Denotes, Represents, DelKey;
    match before
    case Dict(es) =>
      var m := EntriesMap(es);
      DelKeyRepresents(es, m, last.key);
      KeyFinds(DelKey(es, last.key), m - {last.key}, last.key);
      forall m': map<bytes, Node> | Represents(es, m') ensures Represents(DelKey(es, last.key), m' - {last.key}) {
        DelKeyRepresents(es, m', last.key);
      }
    case Array(items) =>
      IndexFinds(items, last.index);
      var j := if 0 <= last.index as int then last.index as int else |items| + last.index as int;
      assert IsPlace(last.index, |items|, j);
      assert Deleted(items, last.index, 1) == items[..j] + items[j + 1..];
  }

  /** The map that entries with distinct keys stand for. */
  lemma EntriesMap(es: seq<Node>) returns (m: map<bytes, Node>)
    requires AllKeyVals(es) && DistinctKeys(es)
    ensures Represents(es, m)
  {
    m := map i | 0 <= i < |es| :: es[i].key := es[i].val;
  }

  /** DEL of the root, of a path that leads nowhere, and of one that does not parse. */
  lemma DelElsewhere(setup: Setup, w: World, path: bytes, given: bool)
    ensures var (w', reply) := Exec(setup, w, Del(path, given));
      && (w.root.None? ==> w' == w && reply == Count(0))
      && (w.root.Some? && ParsePath(path) == Steps([Root]) ==>
            w'.root == None && reply == Count(if given then 1 else 0))
      && (w.root.Some? && ParsePath(path).Malformed? ==> w' == w && reply == BadPath)
      && forall nodes :: w.root.Some? && Leads(path, nodes) && Denotes(nodes, w.root.value).Err? ==>
           && w' == w
           && reply == if Denotes(nodes, w.root.value).error == E_BADTYPE then PathFailure(E_BADTYPE) else Count(0)
  {
    hide Denotes, ParsePath, Put, CanPut;
  }

  // ---- SET ------------------------------------------------------------------------------------

  /** The container with a value where the last step finds one, or a new key. */
  ghost predicate Placed(before: Node, last: PathNode, v: Node, after: Node) {
    match last
    case Key(k) =>
      && before.Dict? && after.Dict? && AllKeyVals(before.entries) && AllKeyVals(after.entries)
      && forall m: map<bytes, Node> :: Represents(before.entries, m) ==> Represents(after.entries, m[k := v])
    case Index(i) =>
      && before.Array?
      && exists j: nat :: IsPlace(i, |before.items|, j) && j < |before.items|
           && after == Array(before.items[..j] + [v] + before.items[j + 1..])
    case Root => false
  }

  /** What SET is to do with a value, for what the path denotes and the flag. */
  datatype Verdict = Write | Leave(reply: Reply)

  /**
   A path that denotes something: NX leaves a dictionary's entry alone, and an array's elements take
   no flags. One whose last key alone is missing: XX leaves it so. Any other: nothing is set.
   */
  ghost predicate Judged(nodes: seq<PathNode>, root: Node, flag: Flag, verdict: Verdict)
    requires nodes != []
  {
    match Denotes(nodes, root)
    case Ok(_) =>
      verdict == if flag == Always then Write
                 else if Last(nodes).Index? then Leave(BadSyntax)
                 else if flag == NX then Leave(Nil) else Write
    case Err(E_NOKEY) =>
      verdict == if Denotes(Front(nodes), root).Err? then Leave(NonTerminal)
                 else if flag == XX then Leave(Nil) else Write
    case Err(e) => verdict == Leave(PathFailure(e))
  }

  /** SET of a path below the root. */
  lemma SetPlaces(setup: Setup, w: World, path: bytes, v: Node, flag: Flag, nodes: seq<PathNode>, verdict: Verdict)
    requires w.root.Some? && IsValue(w.root.value) && Leads(path, nodes) && Judged(nodes, w.root.value, flag, verdict)
    ensures var (w', reply) := Exec(setup, w, Set(path, v, flag));
      match verdict
      case Leave(r) => w' == w && reply == r
      case Write =>
        && w'.root.Some? && reply == Okay
        && Denotes(nodes, w'.root.value) == Ok(v)
        && Denotes(Front(nodes), w.root.value).Ok? && Denotes(Front(nodes), w'.root.value).Ok?
        && Placed(Denotes(Front(nodes), w.root.value).value, Last(nodes), v, Denotes(Front(nodes), w'.root.value).value)
        && OthersKept(nodes, w.root.value, w'.root.value)
  {
    hide Denotes, Put, CanPut, ParsePath, IsValue, Placed;
    var root, front, last := w.root.value, Front(nodes), Last(nodes);
    assert nodes == front + [last];
    Settable(nodes, root);
    if Denotes(nodes, root).Ok? { Container(nodes, root); }
    if verdict.Write? {
      PutConcat(front, [last], root, v);
      PutGet(nodes, root, v);
      PutKeepsOthers(nodes, root, v);
      var before := Denotes(front, root).value;
      PutAbove(front, [last], root, v);
      PartValue(front, root);
      ChildPlaced(before, last, v);
      assert Exec(setup, w, Set(path, v, flag)) == (Cleared(w, Put(nodes, root, v), path), Okay);
    }
  }

  /** A path can be set exactly if it denotes something, or its container does and the last key is missing. */
  lemma Settable(nodes: seq<PathNode>, root: Node)
    requires nodes != []
    ensures CanPut(nodes, root) <==>
      Denotes(nodes, root).Ok? || (Denotes(nodes, root) == Err(E_NOKEY) && Denotes(Front(nodes), root).Ok?)
  {
    hide Denotes, CanPut;
    var front, last := Front(nodes), Last(nodes);
    assert nodes == front + [last];
    DenotesConcat(front, [last], root);
    if Denotes(front, root).Ok? {
      PutConcat(front, [last], root, Null);
      LastSettable(last, Denotes(front, root).value);
    } else {
      if CanPut(nodes, root) { FrontFound(nodes, root); }
    }
  }

  lemma LastSettable(last: PathNode, n: Node)
    ensures CanPut([last], n) <==> Denotes([last], n).Ok? || Denotes([last], n) == Err(E_NOKEY)
  {
    OneStep(last, n);
  }

  lemma {:induction false} FrontFound(nodes: seq<PathNode>, n: Node)
    requires nodes != [] && CanPut(nodes, n)
    ensures Denotes(Front(nodes), n).Ok?
    decreases |nodes|
  {
    hide Eval;
    if |nodes| > 1 {
      assert Front(nodes)[1..] == Front(nodes[1..]);
      FrontFound(nodes[1..], Eval(nodes[0], n).value);
    }
  }

  lemma ChildPlaced(before: Node, last: PathNode, v: Node)
    requires CanPut([last], before)
    ensures Placed(before, last, v, Put([last], before, v))
  {
    hide Represents, SetKeyVal;
    match before
    case Dict(es) =>
      forall m: map<bytes, Node> | Represents(es, m)
        ensures Represents(SetKeyVal(es, KeyVal(last.key, v)), m[last.key := v])
      {
        SetKeyValRepresents(es, m, KeyVal(last.key, v));
      }
    case Array(items) =>
      var j := if 0 <= last.index as int then last.index as int else |items| + last.index as int;
      assert IsPlace(last.index, |items|, j);
      assert items[j := v] == items[..j] + [v] + items[j + 1..];
  }

  /** SET of the root, of a new key, and by a path that does not parse. */
  lemma SetElsewhere(setup: Setup, w: World, path: bytes, v: Node, flag: Flag)
    ensures var (w', reply) := Exec(setup, w, Set(path, v, flag));
      && (w.root.None? && flag == XX ==> w' == w && reply == Nil)
      && (w.root.None? && flag != XX && ParsePath(path) == Steps([Root]) ==> w'.root == Some(v) && reply == Okay)
      && (w.root.None? && flag != XX && ParsePath(path).Steps? && ParsePath(path) != Steps([Root]) ==>
            w' == w && reply == NewNotRoot)
      && (w.root.Some? && ParsePath(path) == Steps([Root]) ==>
            if flag == NX then w' == w && reply == Nil else w'.root == Some(v) && w'.entries == [] && reply == Okay)
      && (w.root.Some? && ParsePath(path).Malformed? ==> w' == w && reply == BadPath)
  {
    hide Denotes, ParsePath, Put, CanPut;
  }

  // ---- commands on a target ---------------------------------------------------------------------

  /** The steps of a path to something: the root has none. */
  function Way(nodes: seq<PathNode>): seq<PathNode> { if nodes == [Root] then [] else nodes }

  /** The path is understood and leads to this node. */
  ghost predicate Target(w: World, path: bytes, p: seq<PathNode>, n: Node) {
    && w.root.Some? && ParsePath(path).Steps? && p == Way(ParsePath(path).nodes)
    && (p == [] ==> ParsePath(path) == Steps([Root])) && Denotes(p, w.root.value) == Ok(n)
  }

  lemma Targeted(w: World, path: bytes, p: seq<PathNode>, n: Node)
    requires Target(w, path, p, n)
    ensures Locate(w, path) == Found(ParsePath(path).nodes, n)
    ensures ParsePath(path).nodes != [Root] ==> p == ParsePath(path).nodes && p != [] && CanPut(p, w.root.value)
  {
    hide Denotes, ParsePath;
    GetPut(p, w.root.value);
    if ParsePath(path).nodes == [Root] { RootDenotes(w.root.value); }
  }

  lemma RootDenotes(n: Node)
    ensures Denotes([], n) == Ok(n)
  {
  }

  /** The document with another node for the target. */
  ghost predicate Replaced(w: World, w': World, p: seq<PathNode>, v: Node) {
    w.root.Some? && w'.root.Some? && Denotes(p, w'.root.value) == Ok(v)
    && OthersKept(p, w.root.value, w'.root.value)
  }

  lemma ReplacedTarget(w: World, path: bytes, p: seq<PathNode>, n: Node, v: Node)
    requires Target(w, path, p, n)
    ensures CanPut(p, w.root.value) && Replaced(w, World(Some(Put(p, w.root.value, v)), []), p, v)
    ensures var nodes := ParsePath(path).nodes;
      (nodes == [Root] || CanPut(nodes, w.root.value)) && Replace(nodes, w.root.value, v) == Put(p, w.root.value, v)
  {
    hide Denotes, ParsePath;
    Targeted(w, path, p, n);
    GetPut(p, w.root.value);
    PutGet(p, w.root.value, v);
    PutKeepsOthers(p, w.root.value, v);
    NoPut(w.root.value, v);
  }

  lemma NoPut(n: Node, v: Node)
    ensures CanPut([], n) && Put([], n, v) == v
  {
  }

  /** NUMINCRBY and NUMMULTBY, once the result is computed. */
  lemma NumWrites(setup: Setup, w: World, path: bytes, result: Node, p: seq<PathNode>, n: Node)
    requires Target(w, path, p, n)
    ensures var (w', reply) := Exec(setup, w, NumIncrBy(path, result));
      if n.Integer? || n.Number? then
        Replaced(w, w', p, result) && reply == Bulk(Print(Format([], [], [], false, setup.dtoa), result, 0))
      else w' == w && reply == WrongType
  {
    hide Denotes, ParsePath, Put, CanPut, Print, Kept, Locate, OthersKept;
    Targeted(w, path, p, n);
    ReplacedTarget(w, path, p, n, result);
  }

  /** ARRINSERT: behind the elements in front of the place, which may be the end. */
  lemma InsertWrites(setup: Setup, w: World, path: bytes, index: int, vs: seq<Node>, p: seq<PathNode>, n: Node)
    requires Target(w, path, p, n)
    ensures var (w', reply) := Exec(setup, w, ArrInsert(path, index, vs));
      if !n.Array? then w' == w && reply == WrongType
      else
        var i := if index < 0 then |n.items| + index else index;
        if 0 <= i <= |n.items| then
          Replaced(w, w', p, Array(n.items[..i] + vs + n.items[i..])) && reply == Count(|n.items| + |vs|)
        else w' == w && reply == BadIndex
  {
    hide Denotes, ParsePath, Put, CanPut, Kept, Locate, OthersKept;
    Targeted(w, path, p, n);
    if n.Array? {
      var i := if index < 0 then |n.items| + index else index;
      if 0 <= i <= |n.items| { ReplacedTarget(w, path, p, n, Array(n.items[..i] + vs + n.items[i..])); }
    }
  }

  /** ARRAPPEND: behind all elements. */
  lemma AppendWrites(setup: Setup, w: World, path: bytes, vs: seq<Node>, p: seq<PathNode>, n: Node)
    requires Target(w, path, p, n)
    ensures var (w', reply) := Exec(setup, w, ArrAppend(path, vs));
      if n.Array? then Replaced(w, w', p, Array(n.items + vs)) && reply == Count(|n.items| + |vs|)
      else w' == w && reply == WrongType
  {
    hide Denotes, ParsePath, Put, CanPut, Kept, Locate, OthersKept;
    Targeted(w, path, p, n);
    if n.Array? {
      ReplacedTarget(w, path, p, n, Array(n.items + vs));
      assert n.items[..|n.items|] + vs + n.items[|n.items|..] == n.items + vs;
    }
  }

  /** Element k is between the two places that start and stop stand for, both included. */
  predicate Between(start: int, stop: int, len: nat, k: nat) {
    (if start < 0 then len + start else start) <= k <= (if stop < 0 then len + stop else stop)
  }

  /** ARRTRIM: a run of elements is left, which are exactly those between start and stop. */
  lemma TrimWrites(setup: Setup, w: World, path: bytes, start: int, stop: int, p: seq<PathNode>, n: Node)
    requires Target(w, path, p, n)
    ensures var (w', reply) := Exec(setup, w, ArrTrim(path, start, stop));
      if !n.Array? then w' == w && reply == WrongType
      else
        exists i: nat, j: nat ::
          && i <= j <= |n.items| && Replaced(w, w', p, Array(n.items[i..j])) && reply == Count(j - i)
          && forall k: nat :: k < |n.items| ==> (i <= k < j <==> Between(start, stop, |n.items|, k))
  {
    hide Denotes, ParsePath, Put, CanPut, Kept, Locate, OthersKept, Trimmed, Replaced;
    Targeted(w, path, p, n);
    if n.Array? {
      var i, j := TrimmedRun(n.items, start, stop);
      ReplacedTarget(w, path, p, n, Array(n.items[i..j]));
      ReplacedEntries(w, World(Some(Put(p, w.root.value, Array(n.items[i..j]))), []),
                      Exec(setup, w, ArrTrim(path, start, stop)).0, p, Array(n.items[i..j]));
    }
  }

  lemma ReplacedEntries(w: World, w': World, w'': World, p: seq<PathNode>, v: Node)
    requires Replaced(w, w', p, v) && w''.root == w'.root
    ensures Replaced(w, w'', p, v)
  {
  }

  lemma TrimmedRun(a: seq<Node>, start: int, stop: int) returns (i: nat, j: nat)
    ensures i <= j <= |a| && Trimmed(a, start, stop) == a[i..j]
    ensures forall k: nat :: k < |a| ==> (i <= k < j <==> Between(start, stop, |a|, k))
  {
    var from := if start < 0 then |a| + start else start;
    var to := if stop < 0 then |a| + stop else stop;
    i, j := if from < 0 then 0 else from, 0;
    if i > to || i >= |a| { i := 0; } else { j := if to < |a| then to + 1 else |a|; }
  }

  /** A copy of a string as C copies it: from its first NUL on there are only NULs. */
  ghost predicate Copied(s: bytes, t: bytes) {
    && |t| == |s|
    && forall i :: 0 <= i < |s| ==> t[i] == if exists j :: 0 <= j <= i && s[j] == 0x00 then 0x00 else s[i]
  }

  lemma CopiedString(s: bytes)
    ensures Copied(s, StrNCpy(s))
    ensures NUL !in s ==> StrNCpy(s) == s
  {
    var c := CString(s);
    forall i | 0 <= i < |s|
      ensures StrNCpy(s)[i] == if exists j :: 0 <= j <= i && s[j] == 0x00 then 0x00 else s[i]
    {
      if i < |c| {
        forall j | 0 <= j <= i ensures s[j] != 0x00 { assert c[j] in c; }
      } else {
        assert s[|c|] == 0x00;
      }
    }
  }

  /** STRAPPEND: both strings are copied one behind the other. */
  lemma StrAppendWrites(setup: Setup, w: World, path: bytes, s: bytes, p: seq<PathNode>, n: Node)
    requires Target(w, path, p, n)
    ensures var (w', reply) := Exec(setup, w, StrAppend(path, s));
      if n.Text? then
        exists a, b :: Copied(n.strval, a) && Copied(s, b) && Replaced(w, w', p, Text(a + b))
          && reply == Count(|n.strval| + |s|)
      else w' == w && reply == WrongType
    ensures n.Text? && NUL !in n.strval && NUL !in s ==>
      Replaced(w, Exec(setup, w, StrAppend(path, s)).0, p, Text(n.strval + s))
  {
    hide Denotes, ParsePath, Put, CanPut, Locate, OthersKept, StrNCpy, Copied, Replaced;
    Targeted(w, path, p, n);
    if n.Text? {
      var a, b := StrNCpy(n.strval), StrNCpy(s);
      CopiedString(n.strval);
      CopiedString(s);
      ReplacedTarget(w, path, p, n, Text(a + b));
      var root' := Put(p, w.root.value, Text(a + b));
      assert Exec(setup, w, StrAppend(path, s)) == (w.(root := Some(root')), Count(|a + b|));
      ReplacedEntries(w, World(Some(root'), []), w.(root := Some(root')), p, Text(a + b));
      assert |a| == |n.strval| && |b| == |s| by { CopiedLength(n.strval, a); CopiedLength(s, b); }
    }
  }

  lemma CopiedLength(s: bytes, t: bytes)
    requires Copied(s, t)
    ensures |t| == |s|
  {
  }

  /** ARRPOP: one element goes, and its text is the reply; an index out of range takes the nearest end. */
  lemma PopWrites(setup: Setup, w: World, path: bytes, index: int, p: seq<PathNode>, n: Node)
    requires Target(w, path, p, n)
    ensures var (w', reply) := Exec(setup, w, ArrPop(path, index));
      if !n.Array? then w' == w && reply == WrongType
      else if n.items == [] then w' == w && reply == Nil
      else
        exists j: nat :: j < |n.items| && Nearest(index, |n.items|, j)
          && Replaced(w, w', p, Array(n.items[..j] + n.items[j + 1..]))
          && reply == Bulk(Print(Format([], [], [], false, setup.dtoa), n.items[j], 0))
  {
    hide Denotes, ParsePath, Put, CanPut, Locate, OthersKept, Print, Replaced;
    Targeted(w, path, p, n);
    if n.Array? && n.items != [] {
      var j := PopIndex(index, |n.items|);
      var rest := Array(n.items[..j] + n.items[j + 1..]);
      assert Deleted(n.items, j, 1) == rest.items;
      ReplacedTarget(w, path, p, n, rest);
      ReplacedEntries(w, World(Some(Put(p, w.root.value, rest)), []), Exec(setup, w, ArrPop(path, index)).0, p, rest);
      assert Nearest(index, |n.items|, j);
    }
  }

  /** The place an index stands for, or the end that is nearer to it. */
  predicate Nearest(index: int, len: nat, j: nat) {
    var i := if index < 0 then len + index else index;
    if i < 0 then j == 0 else if i < len then j == i else j == len - 1
  }

  /** Options as strings of C. */
  function Given(s: Option<bytes>): bytes { if s.None? then [] else CString(s.value) }

  /** GET prints what the path denotes, as the options say. */
  lemma GetPrints(setup: Setup, root: Node, path: bytes, o: Options, p: seq<PathNode>, n: Node)
    requires Target(World(Some(root), []), path, p, n)
    ensures var f := Format(Given(o.indentstr), Given(o.newlinestr), Given(o.spacestr), o.noescape, setup.dtoa);
      Exec(setup, World(Some(root), []), Get(path, o)).1 == Bulk(Print(f, n, 0))
    ensures Exec(setup, World(Some(root), []), Get(path, o)).0.root == Some(root)
  {
    hide Denotes, ParsePath, Locate, Print;
    Targeted(World(Some(root), []), path, p, n);
  }

  /** A string of C that is not there or empty. */
  predicate Absent(s: Option<bytes>) { s.None? || s.value == [] || s.value[0] == 0x00 }

  /**
   GET leaves a text in the cache, under its path without a leading dot: if it is a string's or a
   container's, printed without any layout and long enough, and nothing is cached there.
   */
  lemma GetCaches(setup: Setup, w: World, path: bytes, o: Options, p: seq<PathNode>, n: Node)
    requires Target(w, path, p, n)
    ensures var key := if path != [] && path[0] == 0x2e then path[1..] else path;
      var text := Print(Format([], [], [], false, setup.dtoa), n, 0);
      var plain := Absent(o.indentstr) && Absent(o.newlinestr) && o.spacestr.Some? && Absent(o.spacestr) && !o.noescape;
      Exec(setup, w, Get(path, o)).0
      == if plain && (n.Text? || n.Dict? || n.Array? || n.KeyVal?) && Lookup(w.entries, key).None?
            && |text| >= setup.minSize
         then w.(entries := [Entry(key, text)] + w.entries)
         else w
  {
    hide Denotes, ParsePath, Locate, Print, Lookup, Cachable;
    Targeted(w, path, p, n);
    CachableOptions(o);
    if Cachable(o) { CachableIsCompact(o, setup); }
    ExecGet(setup, w, path, o);
  }

  lemma CachableOptions(o: Options)
    ensures Cachable(o) <==>
      Absent(o.indentstr) && Absent(o.newlinestr) && o.spacestr.Some? && Absent(o.spacestr) && !o.noescape
  {
  }

  /** A command on a target that is not there. */
  lemma NoTarget(setup: Setup, w: World, cmd: Command)
    requires !cmd.Set? && !cmd.Del? && !cmd.Evict?
    ensures var (w', reply) := Exec(setup, w, cmd);
      && (w.root.None? ==> w' == w && reply == if cmd.Get? then Nil else WrongType)
      && (w.root.Some? && ParsePath(cmd.path).Malformed? ==> w' == w && reply == BadPath)
      && (w.root.Some? && ParsePath(cmd.path).Steps? ==>
            var p := Way(ParsePath(cmd.path).nodes);
            Denotes(p, w.root.value).Err? ==> w' == w && reply == PathFailure(Denotes(p, w.root.value).error))
  {
    hide Denotes, ParsePath;
    if w.root.Some? { RootDenotes(w.root.value); }
  }
}
