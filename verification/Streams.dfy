/** RDB streams by their grammar: what the loader makes of every complete value, saved or not. */
module Streams {
  // A stored value is a type, with any upper half, and what belongs to that type. The saver writes some
  // of these; the loader reads all of them.

  import opened Bytes
  import opened Decimal
  import opened Nodes
  import opened Preorder
  import opened Rdb

  /** The types are 0x1, 0x10, 0x8, 0x4, 0x2, 0x80, 0x20 and 0x40, in this order. */
  datatype Stored =
    | StoredNull(u: nat)
    | StoredBool(u: nat, b: bytes)
    | StoredInteger(u: nat, i: int64)
    | StoredNumber(u: nat, d: double)
    | StoredText(u: nat, s: bytes)
    | StoredPair(u: nat, key: bytes, val: Stored)
    | StoredDict(u: nat, elems: seq<Stored>)
    | StoredArray(u: nat, elems: seq<Stored>)

  function Code(v: Stored): nat {
    match v
    case StoredNull(_) => 0x1
    case StoredBool(_, _) => 0x10
    case StoredInteger(_, _) => 0x8
    case StoredNumber(_, _) => 0x4
    case StoredText(_, _) => 0x2
    case StoredPair(_, _, _) => 0x80
    case StoredDict(_, _) => 0x20
    case StoredArray(_, _) => 0x40
  }

  /** The type's lower 32 bits are what they should be. */
  predicate StoredFits(v: Stored)
    decreases v, 1
  {
    && v.u % 0x1_0000_0000 == Code(v)
    && (v.StoredPair? ==> StoredFits(v.val))
    && (v.StoredDict? || v.StoredArray? ==> AllFit(v.elems))
  }

  predicate AllFit(vs: seq<Stored>)
    decreases vs, 0
  {
    vs == [] || (StoredFits(vs[0]) && AllFit(vs[1..]))
  }

  function ItemsOf(v: Stored): seq<Item>
    decreases v, 1
  {
    [Unsigned(v.u)] +
    match v
    case StoredNull(_) => []
    case StoredBool(_, b) => [StringBuffer(b)]
    case StoredInteger(_, i) => [Signed(i)]
    case StoredNumber(_, d) => [Double(d)]
    case StoredText(_, s) => [StringBuffer(s)]
    case StoredPair(_, k, val) => [StringBuffer(k)] + ItemsOf(val)
    case StoredDict(_, vs) => [Unsigned(|vs|)] + ItemsOfAll(vs)
    case StoredArray(_, vs) => [Unsigned(|vs|)] + ItemsOfAll(vs)
  }

  function ItemsOfAll(vs: seq<Stored>): seq<Item>
    decreases vs, 0
  {
    if vs == [] then [] else ItemsOf(vs[0]) + ItemsOfAll(vs[1..])
  }

  /**
   What is loaded; None where a dictionary takes a node for a pair that is none. It passes over a node
   whose first word is zero: false, the integer 0 and the double 0.
   */
  function StoredMeans(v: Stored): Option<Node>
    decreases v, 1
  {
    match v
    case StoredNull(_) => Some(Null)
    case StoredBool(_, b) => Some(Boolean(b != [] && b[0] == 0x31))
    case StoredInteger(_, i) => Some(Integer(i))
    case StoredNumber(_, d) => Some(Number(d))
    case StoredText(_, s) => Some(Text(s))
    case StoredPair(_, k, val) =>
      (match StoredMeans(val) case None => None case Some(n) => Some(KeyVal(CString(k), n)))
    case StoredDict(_, vs) =>
      (match AllMean(vs) case None => None case Some(ns) => PairsOf([], ns))
    case StoredArray(_, vs) =>
      (match AllMean(vs) case None => None case Some(ns) => Some(Array(ns)))
  }

  function AllMean(vs: seq<Stored>): (r: Option<seq<Node>>)
    ensures r.Some? ==> |r.value| == |vs|
    decreases vs, 0
  {
    if vs == [] then Some([])
    else
      match StoredMeans(vs[0])
      case None => None
      case Some(n) => match AllMean(vs[1..]) case None => None case Some(ns) => Some([n] + ns)
  }

  function PairsOf(done: seq<Node>, ns: seq<Node>): Option<Node>
    requires AllKeyVals(done)
    decreases |ns|
  {
    if ns == [] then Some(Dict(done))
    else if ns[0].KeyVal? then PairsOf(SetKeyVal(done, ns[0]), ns[1..])
    else if ns[0] == Boolean(false) || ns[0] == Integer(0) || ns[0] == Number(0) then PairsOf(done, ns[1..])
    else None
  }

  // ---- loading ------------------------------------------------------------------------------------

  /** What a container becomes with these children. */
  function Filled(c: Node, ns: seq<Node>): Option<Node>
    requires Takes(c)
  {
    match c
    case Dict(done) => PairsOf(done, ns)
    case Array(items) => Some(Array(items + ns))
    case KeyVal(k, v) => Some(if ns == [] then c else KeyVal(k, ns[|ns| - 1]))
  }

  predicate Takes(c: Node) { (c.Dict? && AllKeyVals(c.entries)) || c.Array? || c.KeyVal? }

  lemma FilledOne(c: Node, n: Node, ns: seq<Node>)
    requires Takes(c)
    ensures match AddTo(c, n)
      case None => Filled(c, [n] + ns) == None
      case Some(c') => Takes(c') && Filled(c, [n] + ns) == Filled(c', ns)
  {
    assert ([n] + ns)[1..] == ns;
    if c.Array? { assert c.items + ([n] + ns) == c.items + [n] + ns; }
  }

  /** Every complete value is loaded as what it means, whatever follows it, or is undefined. */
  lemma {:induction false} LoadStored(v: Stored, rest: seq<Item>)
    requires StoredFits(v)
    ensures LoadValue(ItemsOf(v) + rest)
         == match StoredMeans(v) case None => Undefined case Some(n) => Loaded(n, rest)
    decreases v, 1
  {
    hide LoadInto, AddTo, PairsOf, ItemsOfAll, AllMean, AllFit;
    var s := ItemsOf(v) + rest;
    assert s[0] == Unsigned(v.u);
    match v
    case StoredNull(_) => assert s[1..] == rest;
    case StoredPair(_, k, val) =>
      assert s[1..][0] == StringBuffer(k) && s[1..][1..] == ItemsOf(val) + rest;
      LoadPair(k, val, rest);
    case StoredDict(_, vs) => LoadContainer(v, vs, rest);
    case StoredArray(_, vs) => LoadContainer(v, vs, rest);
    case _ => assert s[1..][1..] == rest;
  }

  lemma LoadPair(k: bytes, val: Stored, rest: seq<Item>)
    requires StoredFits(val)
    ensures LoadInto(KeyVal(CString(k), Null), 1, ItemsOf(val) + rest)
         == match StoredMeans(val) case None => Undefined case Some(n) => Loaded(KeyVal(CString(k), n), rest)
    decreases val, 2
  {
    hide LoadValue;
    LoadStored(val, rest);
    if StoredMeans(val).Some? {
      assert LoadInto(KeyVal(CString(k), StoredMeans(val).value), 0, rest)
          == Loaded(KeyVal(CString(k), StoredMeans(val).value), rest);
    }
  }

  lemma LoadContainer(v: Stored, vs: seq<Stored>, rest: seq<Item>)
    requires (v.StoredDict? || v.StoredArray?) && v.elems == vs && StoredFits(v)
    ensures LoadValue(ItemsOf(v) + rest)
         == match StoredMeans(v) case None => Undefined case Some(n) => Loaded(n, rest)
    decreases vs, 3
  {
    hide LoadInto, AddTo, PairsOf, ItemsOfAll, AllMean, AllFit;
    var s := ItemsOf(v) + rest;
    assert s[0] == Unsigned(v.u) && s[1..][0] == Unsigned(|vs|) && s[1..][1..] == ItemsOfAll(vs) + rest;
    var c := if v.StoredDict? then Dict([]) else Array([]);
    LoadEach(c, vs, rest);
    if AllMean(vs).Some? { assert [] + AllMean(vs).value == AllMean(vs).value; }
  }

  lemma LoadEach(c: Node, vs: seq<Stored>, rest: seq<Item>)
    requires Takes(c) && AllFit(vs)
    ensures LoadInto(c, |vs|, ItemsOfAll(vs) + rest)
         == match AllMean(vs)
            case None => Undefined
            case Some(ns) => match Filled(c, ns) case None => Undefined case Some(n) => Loaded(n, rest)
    decreases vs, 2
  {
    hide LoadValue, ItemsOf, AddTo, PairsOf, StoredMeans, StoredFits;
    if vs == [] {
      assert ItemsOfAll(vs) + rest == rest;
      NothingFilled(c);
    } else {
      var tail := ItemsOfAll(vs[1..]) + rest;
      assert ItemsOfAll(vs) + rest == ItemsOf(vs[0]) + tail;
      LoadStored(vs[0], tail);
      if StoredMeans(vs[0]).Some? {
        var n := StoredMeans(vs[0]).value;
        var more := AllMean(vs[1..]);
        FilledOne(c, n, if more.None? then [] else more.value);
        if AddTo(c, n).Some? { LoadEach(AddTo(c, n).value, vs[1..], rest); }
      }
    }
  }

  lemma NothingFilled(c: Node)
    requires Takes(c)
    ensures Filled(c, []) == Some(c)
  {
    if c.Array? { assert c.items + [] == c.items; }
  }

  /** The item that belongs to a type. */
  predicate Belongs(t: nat, item: Item) {
    match item
    case Unsigned(_) => t == 0x20 || t == 0x40
    case Signed(_) => t == 0x8
    case Double(_) => t == 0x4
    case StringBuffer(_) => t == 0x10 || t == 0x2 || t == 0x80
  }

  /** The head of a stream that is no value: no type, one that is not known, or one without its item. */
  lemma HeadFails(s: seq<Item>)
    ensures s == [] || !s[0].Unsigned? ==> LoadValue(s) == Failed(Malformed)
    ensures s != [] && s[0].Unsigned? ==>
      var t := s[0].u % 0x1_0000_0000;
      if t !in {0x1, 0x2, 0x4, 0x8, 0x10, 0x20, 0x40, 0x80} then LoadValue(s) == Failed(UnknownType)
      else t != 0x1 && (|s| == 1 || !Belongs(t, s[1])) ==> LoadValue(s) == Failed(Malformed)
  {
    hide LoadInto;
  }

  // ---- saving -------------------------------------------------------------------------------------

  /** What is saved for a tree: booleans as "1" and "0", and keys up to their first NUL. */
  function Saved(n: Node): (v: Stored)
    ensures StoredFits(v)
    decreases n, 1
  {
    match n
    case Null => StoredNull(0x1)
    case Boolean(b) => StoredBool(0x10, [if b then 0x31 else 0x30])
    case Integer(i) => StoredInteger(0x8, i)
    case Number(d) => StoredNumber(0x4, d)
    case Text(s) => StoredText(0x2, s)
    case KeyVal(k, v) => StoredPair(0x80, CString(k), Saved(v))
    case Dict(es) => StoredDict(0x20, AllSaved(es))
    case Array(items) => StoredArray(0x40, AllSaved(items))
  }

  function AllSaved(ns: seq<Node>): (vs: seq<Stored>)
    ensures |vs| == |ns| && AllFit(vs)
    decreases ns, 0
  {
    if ns == [] then [] else [Saved(ns[0])] + AllSaved(ns[1..])
  }

  /** The saver writes just that. */
  lemma {:induction false} SavedItems(n: Node)
    ensures Encode(n) == ItemsOf(Saved(n))
    decreases n, 1
  {
    match n
    case KeyVal(_, v) => SavedItems(v);
    case Dict(es) => SavedItemsOfAll(es);
    case Array(items) => SavedItemsOfAll(items);
    case _ =>
  }

  lemma SavedItemsOfAll(ns: seq<Node>)
    ensures EncodeAll(ns) == ItemsOfAll(AllSaved(ns))
    decreases ns, 0
  {
    hide Saved, ItemsOf, Encode, Flatten;
    if ns != [] {
      SavedItems(ns[0]);
      SavedItemsOfAll(ns[1..]);
      assert Encode(ns[0]) == Flatten(Header, ns[0]) by { EncodeIsFlatten(ns[0]); }
      assert AllSaved(ns)[1..] == AllSaved(ns[1..]);
    }
  }

  lemma EncodeIsFlatten(n: Node)
    ensures Encode(n) == Flatten(Header, n)
  {
  }
}
