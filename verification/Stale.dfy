/** Where the cache does show. */
module Stale {
  // STRAPPEND and ARRPOP clear nothing, and the deletion of an array element clears too little:
  // exactly when that is harmless, and runs in which it is not.

  import opened Bytes
  import opened Cache
  import opened Coherence
  import opened Commands
  import opened Decimal
  import opened Escape
  import opened Nodes
  import opened Path
  import opened Printer
  import opened Resolve
  import opened Splices

  // ---- longer texts -----------------------------------------------------------------------

  ghost predicate Longer(f: Format, a: Node, b: Node) { forall d: int :: |Print(f, a, d)| < |Print(f, b, d)| }

  lemma {:induction false} RestLonger(f: Format, ns: seq<Node>, i: nat, v: Node, d: int)
    requires i < |ns| && Longer(f, ns[i], v)
    ensures |PrintRest(f, ns, d)| < |PrintRest(f, ns[i := v], d)|
    decreases |ns|
  {
    hide Print;
    var r := ns[i := v];
    if i == 0 {
      assert r[1..] == ns[1..];
    } else {
      assert r[1..] == ns[1..][i - 1 := v];
      RestLonger(f, ns[1..], i - 1, v, d);
    }
  }

  lemma EachLonger(f: Format, ns: seq<Node>, i: nat, v: Node, d: int)
    requires i < |ns| && Longer(f, ns[i], v)
    ensures |PrintEach(f, ns, d)| < |PrintEach(f, ns[i := v], d)|
  {
    hide Print, PrintRest;
    var r := ns[i := v];
    if i == 0 {
      assert r[1..] == ns[1..];
    } else {
      assert r[1..] == ns[1..][i - 1 := v];
      RestLonger(f, ns[1..], i - 1, v, d);
    }
  }

  lemma KeyValLonger(f: Format, k: bytes, a: Node, b: Node)
    requires Longer(f, a, b)
    ensures Longer(f, KeyVal(k, a), KeyVal(k, b))
  {
    hide Head;
    KeyHead(f, k, a, b);
    forall d: int ensures |Print(f, KeyVal(k, a), d)| < |Print(f, KeyVal(k, b), d)| {
      assert |Print(f, a, d)| < |Print(f, b, d)|;
    }
  }

  lemma KeyHead(f: Format, k: bytes, a: Node, b: Node)
    ensures Head(f, KeyVal(k, a)) == Head(f, KeyVal(k, b))
  {
  }

  lemma ChildLonger(f: Format, n: Node, step: PathNode, v: Node)
    requires Eval(step, n).Ok? && Longer(f, Eval(step, n).value, v)
    ensures Longer(f, n, SetChild(n, step, v))
  {
    hide PrintEach, Longer;
    match n
    case Dict(es) =>
      var i := Find(es, step.key);
      assert es[i] == KeyVal(step.key, es[i].val);
      KeyValLonger(f, step.key, es[i].val, v);
      DictLonger(f, es, i, KeyVal(step.key, v));
    case Array(items) => ArrayLonger(f, items, Normal(step.index, |items|), v);
  }

  lemma DictLonger(f: Format, es: seq<Node>, i: nat, v: Node)
    requires i < |es| && Longer(f, es[i], v)
    ensures Longer(f, Dict(es), Dict(es[i := v]))
  {
    hide PrintEach, Indent;
    forall d: int ensures |Print(f, Dict(es), d)| < |Print(f, Dict(es[i := v]), d)| { EachLonger(f, es, i, v, d + 1); }
  }

  lemma ArrayLonger(f: Format, items: seq<Node>, i: nat, v: Node)
    requires i < |items| && Longer(f, items[i], v)
    ensures Longer(f, Array(items), Array(items[i := v]))
  {
    hide PrintEach, Indent;
    forall d: int ensures |Print(f, Array(items), d)| < |Print(f, Array(items[i := v]), d)| {
      EachLonger(f, items, i, v, d + 1);
    }
  }

  /** A tree prints longer when something in it does. */
  lemma {:induction false} PutLonger(f: Format, path: seq<PathNode>, n: Node, v: Node)
    requires Denotes(path, n).Ok? && Longer(f, Denotes(path, n).value, v)
    ensures CanPut(path, n) && Longer(f, n, Put(path, n, v))
    decreases |path|
  {
    hide Longer, Eval, SetChild;
    GetPut(path, n);
    if path != [] {
      var child := Eval(path[0], n).value;
      PutLonger(f, path[1..], child, v);
      ChildLonger(f, n, path[0], Put(path[1..], child, v));
      if |path| == 1 { assert path[1..] == []; }
    }
  }

  // ---- STRAPPEND --------------------------------------------------------------------------

  lemma NulLongest(c: byte)
    ensures |EscapeByte(c, false)| <= |EscapeByte(NUL, false)|
  {
  }

  /** A longer string, equal to the old one but for NULs, escapes to a longer text. */
  lemma {:induction false} EscapeLonger(t: bytes, r: bytes)
    requires |t| <= |r| && forall i :: 0 <= i < |t| ==> r[i] == t[i] || r[i] == NUL
    ensures |EscapeBody(t, false)| <= |EscapeBody(r, false)|
    ensures |t| < |r| ==> |EscapeBody(t, false)| < |EscapeBody(r, false)|
    decreases |t|
  {
    hide EscapeByte;
    if t != [] {
      NulLongest(t[0]);
      EscapeLonger(t[1..], r[1..]);
    }
  }

  lemma AppendedText(t: bytes, s: bytes)
    ensures var r := StrNCpy(t) + StrNCpy(s);
      |r| == |t| + |s| && forall i :: 0 <= i < |t| ==> r[i] == t[i] || r[i] == NUL
  {
  }

  lemma AppendedLonger(setup: Setup, t: bytes, s: bytes)
    requires s != []
    ensures Longer(Compact(setup), Text(t), Text(StrNCpy(t) + StrNCpy(s)))
  {
    hide EscapeBody, StrNCpy;
    AppendedText(t, s);
    EscapeLonger(t, StrNCpy(t) + StrNCpy(s));
  }

  /** Nothing is below a string. */
  lemma NothingBelowText(p: seq<PathNode>, q: seq<PathNode>, root: Node)
    requires Denotes(p, root).Ok? && Denotes(p, root).value.Text? && p <= q && p != q
    ensures Denotes(q, root).Err?
  {
    var rest := q[|p|..];
    assert q == p + rest;
    DenotesConcat(p, rest, root);
  }

  /** An entry at or above an appended string is stale. */
  lemma AppendStale(setup: Setup, root: Node, p: seq<PathNode>, v: Node, e: Entry)
    requires Denotes(p, root).Ok? && Longer(Compact(setup), Denotes(p, root).value, v) && CanPut(p, root)
    requires Fresh(setup, root, e) && StepsOf(e.path) <= p
    ensures !Fresh(setup, Put(p, root, v), e)
  {
    hide Put, CanPut, Print, Canonical, AllRenderable, Render;
    var q := StepsOf(e.path);
    var rest := p[|q|..];
    assert p == q + rest;
    DenotesConcat(q, rest, root);
    PutLonger(Compact(setup), rest, Denotes(q, root).value, v);
    PutAbove(q, rest, root, v);
    var a, b := Denotes(q, root).value, Put(rest, Denotes(q, root).value, v);
    assert |Print(Compact(setup), a, 0)| < |Print(Compact(setup), b, 0)|;
  }

  /** Any other entry is not. */
  lemma AppendFresh(setup: Setup, root: Node, p: seq<PathNode>, v: Node, e: Entry)
    requires Canonical(p) && CanPut(p, root) && Denotes(p, root).Ok? && Denotes(p, root).value.Text?
    requires Fresh(setup, root, e) && !(StepsOf(e.path) <= p)
    ensures Fresh(setup, Put(p, root, v), e)
  {
    hide Put, CanPut, Print, Canonical, AllRenderable, Render, Denotes;
    var q := StepsOf(e.path);
    if p <= q { NothingBelowText(p, q, root); }
    PutAgrees(p, root, v);
  }

  /**
   STRAPPEND, by a canonical path and with something to append, leaves the cache coherent if
   and only if it holds no entry for the string or for a container around it.
   */
  lemma StrAppendCoherent(setup: Setup, w: World, text: bytes, p: seq<PathNode>, s: bytes)
    requires Coherent(setup, w) && w.root.Some? && Spells(text, p) && s != []
    requires Denotes(p, w.root.value).Ok? && Denotes(p, w.root.value).value.Text?
    ensures Coherent(setup, Exec(setup, w, StrAppend(text, s)).0)
       <==> forall i :: 0 <= i < |w.entries| ==> !(StepsOf(w.entries[i].path) <= p)
  {
    hide Denotes, Put, CanPut, Fresh, Spells, StepsOf, StrNCpy, Longer, Canonical, IsValue;
    var root := w.root.value;
    var t := Denotes(p, root).value.strval;
    var v := Text(StrNCpy(t) + StrNCpy(s));
    SpelledCanonical(text, p);
    LocateSpelled(w, text, p);
    NodesAsSteps(p, root, v);
    GetPut(p, root);
    AppendedLonger(setup, t, s);
    TextIsValue(v);
    CanonicalRenderable(p);
    PutWellFormed(p, root, v);
    forall i | 0 <= i < |w.entries|
      ensures Fresh(setup, Put(p, root, v), w.entries[i]) <==> !(StepsOf(w.entries[i].path) <= p)
    {
      if StepsOf(w.entries[i].path) <= p {
        AppendStale(setup, root, p, v, w.entries[i]);
      } else {
        AppendFresh(setup, root, p, v, w.entries[i]);
      }
    }
  }

  lemma TextIsValue(v: Node)
    requires v.Text?
    ensures IsValue(v)
  {
  }

  // ---- deleting from an array ---------------------------------------------------------------

  /** `%.17g` prints something. */
  ghost predicate PrintsDoubles(setup: Setup) { forall d: double :: setup.dtoa(d) != [] }

  lemma PrintNotEmpty(f: Format, v: Node, d: int)
    requires IsValue(v) && forall x: double :: f.dtoa(x) != []
    ensures Print(f, v, d) != []
  {
    hide PrintEach;
    if v.Integer? { IntegerText(v.intval); }
  }

  lemma IntegerText(i: int64)
    ensures IntText(i) != []
  {
  }

  /** An array prints longer than what is left of it without one element. */
  lemma DeletedShorter(setup: Setup, items: seq<Node>, j: nat)
    requires AllValues(items) && j < |items| && PrintsDoubles(setup)
    ensures Longer(Compact(setup), Array(Deleted(items, j, 1)), Array(items))
  {
    hide PrintEach, Print;
    var f, rest := Compact(setup), Deleted(items, j, 1);
    assert rest == items[..j] + items[j + 1..];
    forall d: int ensures |Print(f, Array(rest), d)| < |Print(f, Array(items), d)| {
      EachShorter(f, items, j, d + 1);
      CompactArray(f, items, d);
      CompactArray(f, rest, d);
    }
  }

  /** Without indentation and newlines, an array is its elements in brackets. */
  lemma CompactArray(f: Format, items: seq<Node>, d: int)
    requires f.indent == [] && f.newline == []
    ensures |Print(f, Array(items), d)| == |PrintEach(f, items, d + 1)| + 2
  {
    hide PrintEach;
    NoIndent(f, d);
    NoIndent(f, d + 1);
  }

  lemma EachShorter(f: Format, items: seq<Node>, j: nat, d: int)
    requires AllValues(items) && j < |items| && forall x: double :: f.dtoa(x) != []
    ensures |PrintEach(f, items[..j] + items[j + 1..], d)| < |PrintEach(f, items, d)|
  {
    hide Print, PrintRest;
    var rest := items[..j] + items[j + 1..];
    PrintNotEmpty(f, items[j], d);
    if j > 0 {
      assert items[1..][..j - 1] + items[1..][j..] == rest[1..];
      assert rest[0] == items[0];
      RestShorter(f, items[1..], j - 1, d);
    } else if rest != [] {
      assert rest[0] == items[1] && rest[1..] == items[1..][1..];
      RestUnfold(f, items[1..], d);
    }
  }

  lemma RestUnfold(f: Format, ns: seq<Node>, d: int)
    requires ns != []
    ensures |PrintRest(f, ns, d)| >= |Print(f, ns[0], d)| + |PrintRest(f, ns[1..], d)|
  {
    hide Print;
  }

  lemma {:induction false} RestShorter(f: Format, items: seq<Node>, j: nat, d: int)
    requires AllValues(items) && j < |items| && forall x: double :: f.dtoa(x) != []
    ensures |PrintRest(f, items[..j] + items[j + 1..], d)| < |PrintRest(f, items, d)|
    decreases |items|
  {
    hide Print;
    var rest := items[..j] + items[j + 1..];
    if j > 0 {
      assert items[1..][..j - 1] + items[1..][j..] == rest[1..];
      assert rest[0] == items[0];
      RestShorter(f, items[1..], j - 1, d);
    } else {
      assert rest == items[1..];
      PrintNotEmpty(f, items[0], d);
    }
  }

  /** A tree prints shorter when something in it does. */
  lemma PutShorter(f: Format, path: seq<PathNode>, n: Node, v: Node)
    requires Denotes(path, n).Ok? && Longer(f, v, Denotes(path, n).value)
    ensures CanPut(path, n) && Longer(f, Put(path, n, v), n)
  {
    hide Longer, Put, CanPut, Denotes;
    GetPut(path, n);
    PutGet(path, n, v);
    PutPut(path, n, v, Denotes(path, n).value);
    PutLonger(f, path, Put(path, n, v), Denotes(path, n).value);
  }

  /** An entry at or above something that prints shorter is stale. */
  lemma ShorterStale(setup: Setup, root: Node, p: seq<PathNode>, v: Node, e: Entry)
    requires Denotes(p, root).Ok? && Longer(Compact(setup), v, Denotes(p, root).value) && CanPut(p, root)
    requires Fresh(setup, root, e) && StepsOf(e.path) <= p
    ensures !Fresh(setup, Put(p, root, v), e)
  {
    hide Put, CanPut, Print, Canonical, AllRenderable, Render;
    var q := StepsOf(e.path);
    var rest := p[|q|..];
    assert p == q + rest;
    DenotesConcat(q, rest, root);
    PutShorter(Compact(setup), rest, Denotes(q, root).value, v);
    PutAbove(q, rest, root, v);
    var a, b := Denotes(q, root).value, Put(rest, Denotes(q, root).value, v);
    assert |Print(Compact(setup), b, 0)| < |Print(Compact(setup), a, 0)|;
  }

  /**
   The entry is not for something at or behind element j of the array at p; or it is, and one
   element further on there is something that prints the same.
   */
  ghost predicate ReadsOn(setup: Setup, p: seq<PathNode>, items: seq<Node>, j: nat, e: Entry) {
    var q := StepsOf(e.path);
    p < q && q[|p|].Index? && q[|p|].index as int >= j ==>
      var i, rest := q[|p|].index as int + 1, q[|p| + 1..];
      i < |items| && Denotes(rest, items[i]).Ok? && Print(Compact(setup), Denotes(rest, items[i]).value, 0) == e.value
  }

  /** What a step into the array finds when element j is gone. */
  lemma ShiftedEval(items: seq<Node>, j: nat, s: PathNode)
    requires j < |items| && CanonicalStep(s)
    ensures Eval(s, Array(Deleted(items, j, 1))) ==
      if s.Index? && s.index as int >= j then
        if s.index as int + 1 < |items| then Ok(items[s.index as int + 1]) else Err(E_NOINDEX)
      else Eval(s, Array(items))
  {
    var rest := Deleted(items, j, 1);
    assert rest == items[..j] + items[j + 1..];
  }

  /** An entry that is not at or above the array holds what its path denotes if and only if it reads on. */
  lemma DeletedFresh(setup: Setup, root: Node, p: seq<PathNode>, items: seq<Node>, j: nat, e: Entry)
    requires Canonical(p) && Denotes(p, root) == Ok(Array(items)) && j < |items| && CanPut(p, root)
    requires Fresh(setup, root, e) && !(StepsOf(e.path) <= p)
    ensures Fresh(setup, Put(p, root, Array(Deleted(items, j, 1))), e) <==> ReadsOn(setup, p, items, j, e)
  {
    hide Put, CanPut, Print, AllRenderable, Render, Denotes, Tokens, Deleted, Eval, CanonicalStep;
    var q, shrunk := StepsOf(e.path), Array(Deleted(items, j, 1));
    if p < q {
      var rest := q[|p|..];
      assert q == p + rest && rest != [] && CanonicalStep(rest[0]) && rest[0] == q[|p|] && rest[1..] == q[|p| + 1..];
      PutBelow(p, rest, root, shrunk);
      DenotesConcat(p, rest, root);
      ShiftedEval(items, j, rest[0]);
      FirstStep(rest, Array(items));
      FirstStep(rest, shrunk);
    } else {
      PutAgrees(p, root, shrunk);
    }
  }

  lemma FirstStep(rest: seq<PathNode>, n: Node)
    requires rest != []
    ensures Denotes(rest, n)
         == if Eval(rest[0], n).Err? then Eval(rest[0], n) else Denotes(rest[1..], Eval(rest[0], n).value)
  {
    hide Eval;
  }

  lemma DeletedValue(root: Node, p: seq<PathNode>, items: seq<Node>, j: nat)
    requires IsValue(root) && Canonical(p) && Denotes(p, root) == Ok(Array(items)) && j < |items|
    ensures AllValues(items) && CanPut(p, root) && IsValue(Put(p, root, Array(Deleted(items, j, 1))))
  {
    hide Put, CanPut, IsValue, Denotes, Canonical;
    DenotesValue(p, root);
    ItemsValues(Array(items));
    var rest := Deleted(items, j, 1);
    assert rest == items[..j] + items[j + 1..];
    assert AllValues(rest);
    ArrayOfValues(rest);
    GetPut(p, root);
    CanonicalRenderable(p);
    PutWellFormed(p, root, Array(rest));
  }

  /**
   ARRPOP by a canonical path leaves the cache coherent if and only if it holds no entry for the
   array or a container around it, and every entry at or behind the popped element reads on.
   */
  lemma PopCoherent(setup: Setup, w: World, text: bytes, p: seq<PathNode>, index: int)
    requires Coherent(setup, w) && w.root.Some? && Spells(text, p) && PrintsDoubles(setup)
    requires Denotes(p, w.root.value).Ok? && Denotes(p, w.root.value).value.Array?
    requires Denotes(p, w.root.value).value.items != []
    ensures var items := Denotes(p, w.root.value).value.items;
      Coherent(setup, Exec(setup, w, ArrPop(text, index)).0)
      <==> forall i :: 0 <= i < |w.entries| ==>
             !(StepsOf(w.entries[i].path) <= p) && ReadsOn(setup, p, items, PopIndex(index, |items|), w.entries[i])
  {
    hide Denotes, Put, CanPut, Fresh, Spells, StepsOf, Deleted, Longer, Canonical, IsValue, ReadsOn, PrintsDoubles;
    var root, items := w.root.value, Denotes(p, w.root.value).value.items;
    var j := PopIndex(index, |items|);
    var shrunk := Array(Deleted(items, j, 1));
    SpelledCanonical(text, p);
    LocateSpelled(w, text, p);
    NodesAsSteps(p, root, shrunk);
    DeletedValue(root, p, items, j);
    DeletedShorter(setup, items, j);
    forall i | 0 <= i < |w.entries|
      ensures Fresh(setup, Put(p, root, shrunk), w.entries[i])
         <==> !(StepsOf(w.entries[i].path) <= p) && ReadsOn(setup, p, items, j, w.entries[i])
    {
      if StepsOf(w.entries[i].path) <= p {
        ShorterStale(setup, root, p, shrunk, w.entries[i]);
      } else {
        DeletedFresh(setup, root, p, items, j, w.entries[i]);
      }
    }
  }

  /** Nothing is cached for element j of the array at p, for one behind it, or for a part of these. */
  ghost predicate NoneBehind(p: seq<PathNode>, j: nat, es: seq<Entry>) {
    forall i :: 0 <= i < |es| ==>
      var q := StepsOf(es[i].path);
      p < q && q[|p|].Index? ==> (q[|p|].index as int) < j
  }

  lemma NoneBehindReadsOn(setup: Setup, p: seq<PathNode>, items: seq<Node>, j: nat, es: seq<Entry>)
    requires NoneBehind(p, j, es)
    ensures forall i :: 0 <= i < |es| ==> ReadsOn(setup, p, items, j, es[i])
  {
    hide StepsOf, Denotes, Print;
  }

  /** So ARRPOP does no harm if nothing at or above the array is cached, and nothing at or behind the element. */
  lemma PopHarmless(setup: Setup, w: World, text: bytes, p: seq<PathNode>, index: int)
    requires Coherent(setup, w) && w.root.Some? && Spells(text, p) && PrintsDoubles(setup)
    requires Denotes(p, w.root.value).Ok? && Denotes(p, w.root.value).value.Array?
    requires Denotes(p, w.root.value).value.items != []
    requires forall i :: 0 <= i < |w.entries| ==> !(StepsOf(w.entries[i].path) <= p)
    requires NoneBehind(p, PopIndex(index, |Denotes(p, w.root.value).value.items|), w.entries)
    ensures Coherent(setup, Exec(setup, w, ArrPop(text, index)).0)
  {
    hide Denotes, Spells, StepsOf, Coherent, Exec, ReadsOn, NoneBehind, PrintsDoubles;
    var items := Denotes(p, w.root.value).value.items;
    PopCoherent(setup, w, text, p, index);
    NoneBehindReadsOn(setup, p, items, PopIndex(index, |items|), w.entries);
  }

  // ---- DEL of an array element --------------------------------------------------------------

  /** DEL of an element at a canonical path: what is left of the document and of the entries. */
  lemma DelElementUnfold(setup: Setup, w: World, text: bytes, given: bool, p: seq<PathNode>, i: int32)
    requires w.root.Some? && Spells(text, p + [Index(i)]) && Denotes(p, w.root.value).Ok?
    requires Denotes(p, w.root.value).value.Array? && 0 <= i as int < |Denotes(p, w.root.value).value.items|
    ensures var items := Denotes(p, w.root.value).value.items;
      && Canonical(p) && CanPut(p, w.root.value) && AllRenderable(p + [Index(i)])
      && Exec(setup, w, Del(text, given)).0
         == World(Some(Put(p, w.root.value, Array(Deleted(items, i as int, 1)))),
             Kept(w.entries, Render(p + [Index(i)])))
  {
    hide Denotes, Put, CanPut, Kept, Deleted, ParsePath, Render;
    var root, q := w.root.value, p + [Index(i)];
    SpelledCanonical(text, q);
    SpellingParses(text, q);
    CanonicalRenderable(q);
    FrontCanonical(p, Index(i));
    GetPut(p, root);
    NodesAsSteps(q, root, Null);
    DenotesConcat(p, [Index(i)], root);
    OneStep(i, Denotes(p, root).value);
    assert q[..|q| - 1] == p;
  }

  lemma OneStep(i: int32, root: Node)
    ensures Denotes([Index(i)], root) == Eval(Index(i), root)
    ensures CanPut([Index(i)], root) <==> CanSet(root, Index(i))
  {
    assert [Index(i)][1..] == [];
  }

  /**
   DEL of an array element by a canonical path leaves the cache coherent if and only if every
   entry that its clearing keeps, and that is for something behind the element, reads on.
   */
  lemma DelElementCoherent(setup: Setup, w: World, text: bytes, given: bool, p: seq<PathNode>, i: int32)
    requires Coherent(setup, w) && w.root.Some? && Spells(text, p + [Index(i)]) && Denotes(p, w.root.value).Ok?
    requires Denotes(p, w.root.value).value.Array? && 0 <= i as int < |Denotes(p, w.root.value).value.items|
    ensures var items := Denotes(p, w.root.value).value.items;
      AllRenderable(p + [Index(i)]) &&
      (Coherent(setup, Exec(setup, w, Del(text, given)).0)
       <==> var kept := Kept(w.entries, Render(p + [Index(i)]));
            forall k :: 0 <= k < |kept| ==> ReadsOn(setup, p, items, i as int, kept[k]))
  {
    hide Denotes, Put, CanPut, Fresh, Spells, StepsOf, Deleted, Canonical, IsValue, ReadsOn, Kept, Render, Exec,
        ShouldClear, AllRenderable;
    var root, items, q := w.root.value, Denotes(p, w.root.value).value.items, p + [Index(i)];
    DelElementUnfold(setup, w, text, given, p, i);
    DeletedValue(root, p, items, i as int);
    var kept := Kept(w.entries, Render(q));
    KeptExactly(w.entries, Render(q));
    forall k | 0 <= k < |kept|
      ensures Fresh(setup, Put(p, root, Array(Deleted(items, i as int, 1))), kept[k])
        <==> ReadsOn(setup, p, items, i as int, kept[k])
    {
      assert kept[k] in kept;
      var m :| 0 <= m < |w.entries| && w.entries[m] == kept[k];
      KeptNotAbove(setup, root, p, Index(i), kept[k]);
      DeletedFresh(setup, root, p, items, i as int, kept[k]);
    }
  }

  lemma KeptNotAbove(setup: Setup, root: Node, p: seq<PathNode>, s: PathNode, e: Entry)
    requires Fresh(setup, root, e) && AllRenderable(p + [s]) && !ShouldClear(e.path, Render(p + [s]))
    ensures !(StepsOf(e.path) <= p)
  {
    hide StepsOf, Render, ShouldClear, Denotes, Print, Canonical;
    SurvivorUnrelated(p + [s], StepsOf(e.path));
    assert StepsOf(e.path) <= p ==> StepsOf(e.path) <= p + [s];
  }

  /** So it does no harm if nothing at or behind the element is cached. */
  lemma DelElementHarmless(setup: Setup, w: World, text: bytes, given: bool, p: seq<PathNode>, i: int32)
    requires Coherent(setup, w) && w.root.Some? && Spells(text, p + [Index(i)]) && Denotes(p, w.root.value).Ok?
    requires Denotes(p, w.root.value).value.Array? && 0 <= i as int < |Denotes(p, w.root.value).value.items|
    requires NoneBehind(p, i as int, w.entries)
    ensures Coherent(setup, Exec(setup, w, Del(text, given)).0)
  {
    hide Denotes, Spells, StepsOf, Coherent, Exec, ReadsOn, Kept, Render, ShouldClear, AllRenderable;
    DelElementCoherent(setup, w, text, given, p, i);
    var kept := Kept(w.entries, Render(p + [Index(i)]));
    KeptExactly(w.entries, Render(p + [Index(i)]));
    forall k | 0 <= k < |kept|
      ensures var q := StepsOf(kept[k].path);
        p < q && q[|p|].Index? ==> (q[|p|].index as int) < i as int
    {
      assert kept[k] in kept;
      var m :| 0 <= m < |w.entries| && w.entries[m] == kept[k];
    }
    NoneBehindReadsOn(setup, p, Denotes(p, w.root.value).value.items, i as int, kept);
  }

  // ---- runs with a stale reply ------------------------------------------------------------

  const A: byte := 0x61
  const B: byte := 0x62
  const C: byte := 0x63

  const ROOT_PATH: bytes := [DOT]
  const FIRST: bytes := [LBRACKET, 0x30, RBRACKET]              // [0]
  const SECOND: bytes := [LBRACKET, 0x31, RBRACKET]             // [1]
  const LAST: bytes := [LBRACKET, MINUS, 0x31, RBRACKET]        // [-1]

  /** `JSON.GET key path`: the parser of the arguments leaves three empty strings. */
  const PLAIN := Options(Some([]), Some([]), Some([]), false)

  /** A GET, a command that changes what the path denotes but not the entry, and the same GET. */
  lemma StaleRun(setup: Setup, root: Node, text: bytes, nodes: seq<PathNode>, a: Node, cmd: Command, root': Node,
                 b: Node)
    requires setup.minSize <= |Print(Compact(setup), a, 0)| && !Trivial(a) && !Trivial(b)
    requires Locate(World(Some(root), []), text) == Found(nodes, a)
    requires Locate(World(Some(root'), []), text) == Found(nodes, b)
    requires var e := Entry(CacheKey(text), Print(Compact(setup), a, 0));
      Exec(setup, World(Some(root), [e]), cmd).0 == World(Some(root'), [e])
    requires Print(Compact(setup), a, 0) != Print(Compact(setup), b, 0)
    ensures var run := [Get(text, PLAIN), cmd, Get(text, PLAIN)];
      Replies(setup, World(Some(root), []), run) != UncachedReplies(setup, Some(root), run)
  {
    hide Print, Locate, ParsePath;
    var run := [Get(text, PLAIN), cmd, Get(text, PLAIN)];
    var w, w' := World(Some(root), []), World(Some(root'), []);
    var e := Entry(CacheKey(text), Print(Compact(setup), a, 0));
    CachableIsCompact(PLAIN, setup);
    FirstGet(setup, w, text, nodes, a);
    RootIndependent(setup, World(Some(root), [e]), cmd);
    SecondGet(setup, root', text, nodes, a, b);
    RunOfThree(setup, w, run);
  }

  lemma FirstGet(setup: Setup, w: World, text: bytes, nodes: seq<PathNode>, a: Node)
    requires setup.minSize <= |Print(Compact(setup), a, 0)| && !Trivial(a) && w.root.Some? && w.entries == []
    requires Locate(w, text) == Found(nodes, a)
    ensures Exec(setup, w, Get(text, PLAIN))
         == (World(w.root, [Entry(CacheKey(text), Print(Compact(setup), a, 0))]), Bulk(Print(Compact(setup), a, 0)))
  {
    hide Print, Locate, ParsePath;
    CachableIsCompact(PLAIN, setup);
    assert [Entry(CacheKey(text), Print(Compact(setup), a, 0))] + []
      == [Entry(CacheKey(text), Print(Compact(setup), a, 0))];
  }

  lemma SecondGet(setup: Setup, root: Node, text: bytes, nodes: seq<PathNode>, a: Node, b: Node)
    requires !Trivial(b)
    requires Locate(World(Some(root), []), text) == Found(nodes, b)
    ensures var e := Entry(CacheKey(text), Print(Compact(setup), a, 0));
      && Exec(setup, World(Some(root), [e]), Get(text, PLAIN)).1 == Bulk(Print(Compact(setup), a, 0))
      && Exec(setup, World(Some(root), []), Get(text, PLAIN)).1 == Bulk(Print(Compact(setup), b, 0))
  {
    hide Print, ParsePath, StrNEqual;
    CachableIsCompact(PLAIN, setup);
    var key := CacheKey(text);
    StrNEqualIs(key, key, |key|);
    var e := Entry(key, Print(Compact(setup), a, 0));
    assert Lookup([e], key) == Some(e.value);
    assert Locate(World(Some(root), [e]), text) == Locate(World(Some(root), []), text);
  }

  lemma RunOfThree(setup: Setup, w: World, run: seq<Command>)
    requires |run| == 3
    ensures var w1 := Exec(setup, w, run[0]).0;
      var w2 := Exec(setup, w1, run[1]).0;
      var u1 := Exec(setup, World(w.root, []), run[0]).0;
      var u2 := Exec(setup, World(u1.root, []), run[1]).0;
      && |Replies(setup, w, run)| == 3 && Replies(setup, w, run)[2] == Exec(setup, w2, run[2]).1
      && |UncachedReplies(setup, w.root, run)| == 3
      && UncachedReplies(setup, w.root, run)[2] == Exec(setup, World(u2.root, []), run[2]).1
  {
    hide Exec;
    RunCons(setup, w, run[0], run[1..]);
    RunCons(setup, Exec(setup, w, run[0]).0, run[1], run[2..]);
    RunCons(setup, Exec(setup, Exec(setup, w, run[0]).0, run[1]).0, run[2], []);
    var u1 := Exec(setup, World(w.root, []), run[0]).0;
    RunCons(setup, World(u1.root, []), run[1], run[2..]);
    RunCons(setup, World(Exec(setup, World(u1.root, []), run[1]).0.root, []), run[2], []);
    assert run == [run[0]] + run[1..] && run[1..] == [run[1]] + run[2..] && run[2..] == [run[2]] + [];
  }

  lemma RunCons(setup: Setup, w: World, cmd: Command, cmds: seq<Command>)
    ensures Replies(setup, w, [cmd] + cmds) == [Exec(setup, w, cmd).1] + Replies(setup, Exec(setup, w, cmd).0, cmds)
    ensures UncachedReplies(setup, w.root, [cmd] + cmds)
         == [Exec(setup, World(w.root, []), cmd).1]
          + UncachedReplies(setup, Exec(setup, World(w.root, []), cmd).0.root, cmds)
    ensures cmds == [] ==>
      && Replies(setup, Exec(setup, w, cmd).0, cmds) == []
      && UncachedReplies(setup, Exec(setup, World(w.root, []), cmd).0.root, cmds) == []
  {
    hide Exec;
    assert ([cmd] + cmds)[1..] == cmds;
  }

  // ---- the two families ------------------------------------------------------------------

  lemma TextsDiffer(setup: Setup, a: byte, b: byte)
    requires {a, b} == {A, B} || {a, b} == {B, C}
    ensures Print(Compact(setup), Text([a]), 0) == [QUOTE, a, QUOTE]
    ensures a != b ==> Print(Compact(setup), Text([a]), 0) != Print(Compact(setup), Text([b]), 0)
  {
    OneByteText(setup, a);
    OneByteText(setup, b);
  }

  lemma OneByteText(setup: Setup, c: byte)
    requires c == A || c == B || c == C
    ensures Print(Compact(setup), Text([c]), 0) == [QUOTE, c, QUOTE]
  {
    assert EscapeBody([c], false) == EscapeByte(c, false) + EscapeBody([], false);
    assert EscapeByte(c, false) == [c];
  }

  lemma IndexPath(i: int32, text: bytes)
    requires (i == 0 && text == FIRST) || (i == 1 && text == SECOND) || (i == -1 && text == LAST)
    ensures ParsePath(text) == Steps([Index(i)]) && CacheKey(text) == text
  {
    hide Scan;
    assert Decimal.IntText(i) == if i == 0 then [0x30] else if i == 1 then [0x31] else [MINUS, 0x31];
    assert RenderRest([Index(i)]) == RenderNext(Index(i)) + RenderRest([]);
    assert Render([Index(i)]) == text;
    ParseRender([Index(i)]);
  }

  lemma RootPath()
    ensures ParsePath(ROOT_PATH) == Steps([Root]) && CacheKey(ROOT_PATH) == []
  {
  }

  /** Popping from a cached array: the next GET still shows the element. */
  lemma PopStale(setup: Setup)
    requires setup.minSize == 0
    ensures var root, run := Array([Text([A])]), [Get(ROOT_PATH, PLAIN), ArrPop(ROOT_PATH, -1), Get(ROOT_PATH, PLAIN)];
      Replies(setup, World(Some(root), []), run) != UncachedReplies(setup, Some(root), run)
  {
    hide Print, Tokens;
    RootPath();
    var root := Array([Text([A])]);
    assert Deleted(root.items, 0, 1) == [];
    PopTexts(setup);
    StaleRun(setup, root, ROOT_PATH, [Root], root, ArrPop(ROOT_PATH, -1), Array([]), Array([]));
  }

  lemma PopTexts(setup: Setup)
    ensures Print(Compact(setup), Array([Text([A])]), 0) != Print(Compact(setup), Array([]), 0)
  {
    OneByteText(setup, A);
    var f := Compact(setup);
    assert PrintEach(f, [Text([A])], 1) == Print(f, Text([A]), 1) + PrintRest(f, [], 1);
    assert |Print(f, Array([Text([A])]), 0)| > 2;
    assert |Print(f, Array([]), 0)| == 2;
  }

  /** Deleting an array element shifts its right neighbours; their entries stay. */
  lemma DelElementStale(setup: Setup)
    requires setup.minSize == 0
    ensures var root, run := Array([Text([A]), Text([B]), Text([C])]),
        [Get(SECOND, PLAIN), Del(FIRST, true), Get(SECOND, PLAIN)];
      Replies(setup, World(Some(root), []), run) != UncachedReplies(setup, Some(root), run)
  {
    hide Print, Tokens, ParsePath, StrNEqual, CacheKey, IsIdent;
    var root, root' := Array([Text([A]), Text([B]), Text([C])]), Array([Text([B]), Text([C])]);
    IndexPath(0, FIRST);
    IndexPath(1, SECOND);
    OneStep(1, root);
    OneStep(1, root');
    OneStep(0, root);
    TextsDiffer(setup, B, C);
    assert Deleted(root.items, 0, 1) == root'.items;
    var e := Entry(CacheKey(SECOND), Print(Compact(setup), Text([B]), 0));
    OtherIndexKept(e);
    StaleRun(setup, root, SECOND, [Index(1)], Text([B]), Del(FIRST, true), root', Text([C]));
  }

  lemma OtherIndexKept(e: Entry)
    requires e.path == SECOND || e.path == LAST
    ensures Kept([e], FIRST) == [e]
  {
    assert !StrNEqual(FIRST, e.path, 3) && (|e.path| == 4 ==> !StrNEqual(FIRST, e.path, |FIRST|));
  }
}
