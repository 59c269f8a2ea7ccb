/** Decoding over the objects of a file: the uncached decoder with its path check, the meaning it
    computes, and the reader with its offset-to-object cache. */
module PlistGraph {
  import opened Bytes
  import opened PlistFormat

  /** The offsets of the collections being decoded. Kept only once decoding is deep. */
  type Path = Option<set<nat>>

  const SHALLOW := 15

  /** The object table of a file: what the bytes at each offset say. Offsets start after the
      header and stop before the offset table. */
  datatype Objects = Objects(limit: nat, head: nat -> Head)

  predicate Inside(g: Objects, off: nat) {
    8 <= off < g.limit
  }

  function ObjectRange(g: Objects): set<nat> {
    set off: nat | off < g.limit && Inside(g, off)
  }

  function HeadOf(g: Objects, off: nat): Head {
    if Inside(g, off) then g.head(off) else Bad
  }

  function Enter(path: Path, off: nat, depth: nat): Path {
    match path
    case Some(s) => Some(s + {off})
    case None => if SHALLOW < depth then Some({off}) else None
  }

  /** What is left to descend into: levels while shallow, then offsets not on the path. */
  function Levels(path: Path, depth: nat): nat
    requires path.None? ==> depth <= SHALLOW + 1
  {
    if path.None? then SHALLOW + 2 - depth else 0
  }

  function Unvisited(g: Objects, path: Path): set<nat> {
    if path.None? then {} else ObjectRange(g) - path.value
  }

  /** Decoding without the cache. */
  function Decode(g: Objects, off: nat, path: Path, depth: nat): Option<Value>
    requires path.None? ==> depth <= SHALLOW + 1
    decreases Levels(path, depth), Unvisited(g, path), 0, 0
  {
    if path.Some? && off in path.value then None
    else
      match HeadOf(g, off)
      case Bad => None
      case Leaf(v) => Some(v)
      case Node(kind, offs) =>
        assert off in ObjectRange(g);
        var inner := Enter(path, off, depth);
        assert path.Some? ==> Unvisited(g, inner) < Unvisited(g, path) by {
          if path.Some? { assert off in Unvisited(g, path) && off !in Unvisited(g, inner); }
        }
        var elems :- DecodeAll(g, kind, offs, 0, inner, depth + 1);
        Some(Coll(kind, elems))
  }

  /** The elements from index `i` on. The first half of a dictionary must be primitive. */
  function DecodeAll(g: Objects, kind: Kind, offs: seq<nat>, i: nat,
                     path: Path, depth: nat): (r: Option<seq<Value>>)
    requires i <= |offs|
    requires path.None? ==> depth <= SHALLOW + 1
    ensures r.Some? ==> |r.value| == |offs| - i
    decreases Levels(path, depth), Unvisited(g, path), 1, |offs| - i
  {
    if i == |offs| then Some([])
    else
      var v :- Decode(g, offs[i], path, depth);
      if IsKey(kind, i, |offs|) && !Primitive(v) then None
      else
        var rest :- DecodeAll(g, kind, offs, i + 1, path, depth);
        Some([v] + rest)
  }

  predicate IsKey(kind: Kind, i: nat, n: nat) {
    kind == Dict && i < n / 2
  }

  /** The meaning of an offset, with no path and no depth: `v` is the finite tree the object at
      `off` stands for. */
  ghost predicate Represents(g: Objects, off: nat, v: Value)
    decreases v
  {
    match HeadOf(g, off)
    case Bad => false
    case Leaf(w) => v == w
    case Node(kind, offs) =>
      && v.Coll? && v.kind == kind && |v.elems| == |offs|
      && (forall i :: 0 <= i < |offs| ==> Represents(g, offs[i], v.elems[i]))
      && (forall i :: 0 <= i < |offs| && IsKey(kind, i, |offs|) ==> Primitive(v.elems[i]))
  }

  function Size(v: Value): nat {
    if v.Coll? then 1 + SizeAll(v.elems) else 0
  }

  function SizeAll(vs: seq<Value>): nat {
    if vs == [] then 0 else Size(vs[0]) + SizeAll(vs[1..])
  }

  lemma {:induction false} ElementSmaller(vs: seq<Value>, i: nat)
    requires i < |vs|
    ensures Size(vs[i]) <= SizeAll(vs)
  {
    if i > 0 { ElementSmaller(vs[1..], i - 1); }
  }

  /** An offset stands for at most one tree. */
  lemma {:induction false} RepresentsOne(g: Objects, off: nat, v: Value, w: Value)
    requires Represents(g, off, v) && Represents(g, off, w)
    ensures v == w
    decreases v
  {
    if HeadOf(g, off).Node? {
      var offs := HeadOf(g, off).offs;
      forall i | 0 <= i < |offs| ensures v.elems[i] == w.elems[i] {
        RepresentsOne(g, offs[i], v.elems[i], w.elems[i]);
      }
      assert v.elems == w.elems;
    }
  }

  /** Whatever the decoder returns is what the offset stands for. */
  lemma {:induction false} DecodeSound(g: Objects, off: nat, path: Path, depth: nat)
    requires path.None? ==> depth <= SHALLOW + 1
    requires Decode(g, off, path, depth).Some?
    ensures Represents(g, off, Decode(g, off, path, depth).value)
    decreases Levels(path, depth), Unvisited(g, path), 0, 0
  {
    var h := HeadOf(g, off);
    if h.Node? {
      assert off in ObjectRange(g);
      var inner := Enter(path, off, depth);
      if path.Some? { assert off in Unvisited(g, path) && off !in Unvisited(g, inner); }
      DecodeAllSound(g, h.kind, h.offs, 0, inner, depth + 1);
    }
  }

  lemma {:induction false} DecodeAllSound(g: Objects, kind: Kind, offs: seq<nat>, i: nat,
                                          path: Path, depth: nat)
    requires i <= |offs|
    requires path.None? ==> depth <= SHALLOW + 1
    requires DecodeAll(g, kind, offs, i, path, depth).Some?
    ensures var vs := DecodeAll(g, kind, offs, i, path, depth).value;
            forall j :: i <= j < |offs| ==>
              Represents(g, offs[j], vs[j - i]) && (IsKey(kind, j, |offs|) ==> Primitive(vs[j - i]))
    decreases Levels(path, depth), Unvisited(g, path), 1, |offs| - i
  {
    if i < |offs| {
      DecodeSound(g, offs[i], path, depth);
      DecodeAllSound(g, kind, offs, i + 1, path, depth);
      var vs := DecodeAll(g, kind, offs, i, path, depth).value;
      var rest := DecodeAll(g, kind, offs, i + 1, path, depth).value;
      forall j | i <= j < |offs|
        ensures Represents(g, offs[j], vs[j - i]) && (IsKey(kind, j, |offs|) ==> Primitive(vs[j - i]))
      {
        if j > i { assert vs[j - i] == rest[j - (i + 1)]; }
      }
    }
  }

  /** The tree an offset stands for, if any. */
  ghost function Meaning(g: Objects, off: nat): Option<Value> {
    if v: Value :| Represents(g, off, v) then Some(v) else None
  }

  lemma MeaningIs(g: Objects, off: nat, v: Value)
    ensures Meaning(g, off) == Some(v) <==> Represents(g, off, v)
  {
    if Represents(g, off, v) {
      RepresentsOne(g, off, v, Meaning(g, off).value);
    }
  }

  /** `p` lies above `off`: if `p` stands for a tree, `off` stands for a smaller one. */
  ghost predicate Above(g: Objects, p: nat, off: nat) {
    Meaning(g, p).Some? ==> Meaning(g, off).Some? && Size(Meaning(g, off).value) < Size(Meaning(g, p).value)
  }

  ghost predicate AllAbove(g: Objects, path: Path, off: nat) {
    path.Some? ==> forall p :: p in path.value ==> Above(g, p, off)
  }

  lemma ChildBelow(g: Objects, off: nat, i: nat)
    requires HeadOf(g, off).Node? && i < |HeadOf(g, off).offs|
    ensures Above(g, off, HeadOf(g, off).offs[i])
  {
    if Meaning(g, off).Some? {
      var w := Meaning(g, off).value;
      ElementSmaller(w.elems, i);
      MeaningIs(g, HeadOf(g, off).offs[i], w.elems[i]);
    }
  }

  /** From collection to element, from element to element of that, and so on. */
  predicate Walk(g: Objects, w: seq<nat>) {
    w != [] && forall i :: 0 <= i < |w| - 1 ==> HeadOf(g, w[i]).Node? && w[i + 1] in HeadOf(g, w[i]).offs
  }

  lemma {:induction false} WalkDescends(g: Objects, w: seq<nat>)
    requires Walk(g, w) && 2 <= |w|
    ensures Above(g, w[0], w[|w| - 1])
  {
    var n := |w| - 1;
    assert w[(n - 1) + 1] in HeadOf(g, w[n - 1]).offs;
    var offs := HeadOf(g, w[n - 1]).offs;
    var i :| 0 <= i < |offs| && offs[i] == w[n];
    ChildBelow(g, w[n - 1], i);
    if 1 < n { WalkDescends(g, w[..n]); }
  }

  /** Stepping into an element keeps everything on the path above. */
  lemma EnterKeepsAbove(g: Objects, path: Path, off: nat, depth: nat, i: nat)
    requires AllAbove(g, path, off)
    requires HeadOf(g, off).Node? && i < |HeadOf(g, off).offs|
    ensures AllAbove(g, Enter(path, off, depth), HeadOf(g, off).offs[i])
  {
    ChildBelow(g, off, i);
  }

  /** The path check never refuses an offset that stands for a tree: nothing lies above itself. */
  lemma {:induction false} DecodeComplete(g: Objects, off: nat, path: Path, depth: nat, v: Value)
    requires path.None? ==> depth <= SHALLOW + 1
    requires Represents(g, off, v) && AllAbove(g, path, off)
    ensures Decode(g, off, path, depth) == Some(v)
    decreases v, 0
  {
    MeaningIs(g, off, v);
    assert path.Some? && off in path.value ==> Above(g, off, off);
    var h := HeadOf(g, off);
    if h.Node? {
      var inner := Enter(path, off, depth);
      forall i | 0 <= i < |h.offs| ensures AllAbove(g, inner, h.offs[i]) {
        EnterKeepsAbove(g, path, off, depth, i);
      }
      DecodeAllComplete(g, h.kind, h.offs, 0, inner, depth + 1, v.elems);
      assert v.elems[0..] == v.elems;
    }
  }

  lemma {:induction false} DecodeAllComplete(g: Objects, kind: Kind, offs: seq<nat>, i: nat,
                                             path: Path, depth: nat, vs: seq<Value>)
    requires i <= |offs| == |vs|
    requires path.None? ==> depth <= SHALLOW + 1
    requires forall j :: i <= j < |offs| ==> Represents(g, offs[j], vs[j]) && AllAbove(g, path, offs[j])
    requires forall j :: i <= j < |offs| && IsKey(kind, j, |offs|) ==> Primitive(vs[j])
    ensures DecodeAll(g, kind, offs, i, path, depth) == Some(vs[i..])
    decreases vs, 1, |offs| - i
  {
    if i < |offs| {
      DecodeComplete(g, offs[i], path, depth, vs[i]);
      DecodeAllComplete(g, kind, offs, i + 1, path, depth, vs);
      assert vs[i..] == [vs[i]] + vs[i + 1..];
    }
  }

  /** Depth and path decide nothing: the decoder succeeds exactly on the offsets that stand for a
      finite tree, and returns that tree. */
  lemma DecodeIsMeaning(g: Objects, off: nat, path: Path, depth: nat)
    requires path.None? ==> depth <= SHALLOW + 1
    requires AllAbove(g, path, off)
    ensures Decode(g, off, path, depth) == Meaning(g, off)
  {
    if Meaning(g, off).Some? {
      DecodeComplete(g, off, path, depth, Meaning(g, off).value);
    } else if Decode(g, off, path, depth).Some? {
      DecodeSound(g, off, path, depth);
    }
  }

  /** An object from which references lead around in a cycle, at whatever depth, is never decoded. */
  lemma CycleRefused(g: Objects, w: seq<nat>, j: nat)
    requires Walk(g, w) && j < |w| - 1 && w[j] == w[|w| - 1]
    ensures Decode(g, w[0], None, 0) == None
  {
    DecodeIsMeaning(g, w[0], None, 0);
    WalkDescends(g, w[j..]);
    if 0 < j {
      assert w[..j + 1][j] == w[j];
      WalkDescends(g, w[..j + 1]);
    }
  }

  // ---------- The reader with its cache ----------

  datatype Mutability = Immutable | MutableContainers | MutableContainersAndLeaves

  /** Which finished objects the cache keeps. */
  predicate Kept(option: Mutability, v: Value) {
    match v
    case Null | Bool(_) => false
    case Data(_) | Str(_) => option != MutableContainersAndLeaves
    case Coll(_, _) => option == Immutable
    case _ => true
  }

  /** A finished object. Mutable ones carry a number, in the order in which they were made. */
  datatype Made = Single(v: Value, id: Option<nat>) | Group(kind: Kind, elems: seq<Made>, id: Option<nat>)

  function Erase(m: Made): Value {
    match m
    case Single(v, _) => v
    case Group(kind, elems, _) => Coll(kind, seq(|elems|, i requires 0 <= i < |elems| => Erase(elems[i])))
  }

  function EraseAll(list: seq<Made>): (values: seq<Value>)
    ensures |values| == |list|
  {
    seq(|list|, i requires 0 <= i < |list| => Erase(list[i]))
  }

  predicate LeafMutable(option: Mutability, v: Value) {
    option == MutableContainersAndLeaves && (v.Data? || v.Str?)
  }

  /** Mutable is what the option says, at every level. */
  predicate AsAsked(option: Mutability, m: Made) {
    match m
    case Single(v, id) => id.Some? <==> LeafMutable(option, v)
    case Group(_, elems, id) => (id.Some? <==> option != Immutable) && forall e :: e in elems ==> AsAsked(option, e)
  }

  /** A result and everything inside it. */
  function Parts(m: Made): seq<Made>
    decreases m, 1
  {
    [m] + if m.Group? then AllParts(m.elems) else []
  }

  function AllParts(list: seq<Made>): seq<Made>
    decreases list, 0
  {
    if list == [] then [] else Parts(list[0]) + AllParts(list[1..])
  }

  /** Collections are mutable for two of the options, and strings and data for one of them. */
  predicate PartAsAsked(option: Mutability, m: Made) {
    match option
    case Immutable => m.id == None
    case MutableContainers => m.id.Some? <==> m.Group?
    case MutableContainersAndLeaves => m.id.Some? <==> m.Group? || m.v.Str? || m.v.Data?
  }

  lemma {:induction false} AsAskedThroughout(option: Mutability, m: Made)
    ensures AsAsked(option, m) <==> forall p :: p in Parts(m) ==> PartAsAsked(option, p)
    decreases m, 1
  {
    if m.Group? { AllAsAskedThroughout(option, m.elems); }
    assert m in Parts(m);
  }

  lemma {:induction false} AllAsAskedThroughout(option: Mutability, list: seq<Made>)
    ensures (forall e :: e in list ==> AsAsked(option, e)) <==> forall p :: p in AllParts(list) ==> PartAsAsked(option, p)
    decreases list, 0
  {
    if list != [] {
      AsAskedThroughout(option, list[0]);
      AllAsAskedThroughout(option, list[1..]);
      assert forall e :: e in list <==> e == list[0] || e in list[1..];
    }
  }

  function Ids(id: Option<nat>): seq<nat> {
    if id.Some? then [id.value] else []
  }

  /** The mutable objects of a result, those inside a collection before the collection. */
  function MutableIds(m: Made): seq<nat>
    decreases m, 1
  {
    match m
    case Single(_, id) => Ids(id)
    case Group(_, elems, id) => AllMutableIds(elems) + Ids(id)
  }

  function AllMutableIds(list: seq<Made>): seq<nat>
    decreases list, 0
  {
    if list == [] then [] else AllMutableIds(list[..|list| - 1]) + MutableIds(list[|list| - 1])
  }

  predicate Ascending(ids: seq<nat>, lo: nat, hi: nat) {
    && lo <= hi && (forall i :: 0 <= i < |ids| ==> lo <= ids[i] < hi)
    && forall i, j :: 0 <= i < j < |ids| ==> ids[i] < ids[j]
  }

  lemma AscendingOn(a: seq<nat>, b: seq<nat>, lo: nat, mid: nat, hi: nat)
    requires Ascending(a, lo, mid) && Ascending(b, mid, hi)
    ensures Ascending(a + b, lo, hi)
  {
  }

  lemma {:induction false} NothingMutable(list: seq<Made>)
    requires forall e :: e in list ==> AsAsked(Immutable, e)
    ensures AllMutableIds(list) == []
    decreases list
  {
    if list != [] {
      var n := |list| - 1;
      NothingMutable(list[..n]);
      assert list[n] in list;
      if list[n].Group? { NothingMutable(list[n].elems); }
    }
  }

  /** What the cache keeps is not mutable anywhere. */
  lemma KeptIsImmutable(option: Mutability, m: Made)
    requires AsAsked(option, m) && Kept(option, Erase(m))
    ensures MutableIds(m) == []
  {
    if m.Group? { NothingMutable(m.elems); }
  }

  class Reader {
    const g: Objects
    const option: Mutability
    var objects: map<nat, Made>
    var path: Path
    var next: nat

    /** Everything cached is what its offset stands for, and not mutable. */
    ghost predicate Valid()
      reads this
    {
      forall off :: off in objects ==>
        Represents(g, off, Erase(objects[off])) && AsAsked(option, objects[off]) && MutableIds(objects[off]) == []
    }

    constructor (g: Objects, option: Mutability)
      ensures Valid() && objects == map[] && path == None && next == 0
      ensures this.g == g && this.option == option
    {
      this.g, this.option := g, option;
      objects, path, next := map[], None, 0;
    }

    /** The next number for an object that is to be mutable. */
    method Number(isMutable: bool) returns (id: Option<nat>)
      modifies this`next
      ensures (id.Some? <==> isMutable) && Ascending(Ids(id), old(next), next)
    {
      id := None;
      if isMutable { id, next := Some(next), next + 1; }
    }

    /** With any valid cache, decoding succeeds exactly when uncached decoding does, with the same
        value, and leaves the path as it was. Whatever is mutable in the result is newly made, and made
        once: nothing mutable is shared. */
    method CreateObject(off: nat, depth: nat) returns (ok: bool, plist: Made)
      requires Valid()
      requires path.None? ==> depth <= SHALLOW + 1
      requires AllAbove(g, path, off)
      modifies this
      ensures Valid()
      ensures ok <==> Decode(g, off, old(path), depth).Some?
      ensures ok ==> Decode(g, off, old(path), depth) == Some(Erase(plist)) && path == old(path)
      ensures old(next) <= next
      ensures ok ==> AsAsked(option, plist) && Ascending(MutableIds(plist), old(next), next)
      decreases Levels(path, depth), Unvisited(g, path), 2
    {
      hide Represents;
      plist := Single(Null, None);
      if off in objects {
        DecodeComplete(g, off, path, depth, Erase(objects[off]));
        return true, objects[off];
      }
      if path.Some? && off in path.value { return false, plist; }
      match HeadOf(g, off) {
        case Bad => return false, plist;
        case Leaf(v) =>
          var id := Number(LeafMutable(option, v));
          ok, plist := true, Single(v, id);
        case Node(kind, offs) =>
          forall i | 0 <= i < |offs| ensures AllAbove(g, Enter(path, off, depth), offs[i]) {
            EnterKeepsAbove(g, path, off, depth, i);
          }
          ok, plist := CreateCollection(off, depth, kind, offs);
      }
      if ok {
        DecodeSound(g, off, old(path), depth);
        if Kept(option, Erase(plist)) {
          KeptIsImmutable(option, plist);
          objects := objects[off := plist];
        }
      }
    }

    /** A collection puts its own offset on the path while its elements are made. */
    method CreateCollection(off: nat, depth: nat, kind: Kind, offs: seq<nat>)
      returns (ok: bool, plist: Made)
      requires Valid()
      requires path.None? ==> depth <= SHALLOW + 1
      requires Inside(g, off) && (path.Some? ==> off !in path.value)
      requires forall i :: 0 <= i < |offs| ==> AllAbove(g, Enter(path, off, depth), offs[i])
      modifies this
      ensures Valid()
      ensures var elems := DecodeAll(g, kind, offs, 0, Enter(old(path), off, depth), depth + 1);
              && (ok <==> elems.Some?)
              && (ok ==> Erase(plist) == Coll(kind, elems.value) && path == old(path))
      ensures old(next) <= next
      ensures ok ==> AsAsked(option, plist) && Ascending(MutableIds(plist), old(next), next)
      decreases Levels(path, depth), Unvisited(g, path), 1
    {
      ghost var outer, inner := path, Enter(path, off, depth);
      EnterShrinks(g, outer, off, depth);
      var madeSet := path.None? && SHALLOW < depth;
      if madeSet { path := Some({}); }
      if path.Some? { path := Some(path.value + {off}); }
      assert path.Some? ==> path.value == inner.value;
      ghost var first := next;
      var list: seq<Made>;
      ok, list := CreateElements(kind, offs, depth + 1);
      plist := Group(kind, list, None);
      if ok {
        ghost var middle := next;
        var id := Number(option != Immutable);
        plist := Group(kind, list, id);
        AscendingOn(AllMutableIds(list), Ids(id), first, middle, next);
        assert Erase(plist) == Coll(kind, EraseAll(list));
        if path.Some? { path := Some(path.value - {off}); }
        if madeSet { path := None; }
        assert outer.Some? ==> inner.value - {off} == outer.value;
      }
    }

    method CreateElements(kind: Kind, offs: seq<nat>, depth: nat) returns (ok: bool, list: seq<Made>)
      requires Valid()
      requires path.None? ==> depth <= SHALLOW + 1
      requires forall i :: 0 <= i < |offs| ==> AllAbove(g, path, offs[i])
      modifies this
      ensures Valid()
      ensures ok <==> DecodeAll(g, kind, offs, 0, old(path), depth).Some?
      ensures ok ==> DecodeAll(g, kind, offs, 0, old(path), depth) == Some(EraseAll(list)) && path == old(path)
      ensures old(next) <= next
      ensures ok ==> (forall e :: e in list ==> AsAsked(option, e)) && Ascending(AllMutableIds(list), old(next), next)
      decreases Levels(path, depth), Unvisited(g, path), 3
    {
      list := [];
      for idx := 0 to |offs|
        invariant idx == |list| && Valid() && path == old(path) && old(next) <= next
        invariant Resumes(g, kind, offs, path, depth, EraseAll(list))
        invariant forall e :: e in list ==> AsAsked(option, e)
        invariant Ascending(AllMutableIds(list), old(next), next)
      {
        ghost var middle := next;
        var made, pl := CreateObject(offs[idx], depth);
        if !made || (IsKey(kind, idx, |offs|) && !Primitive(Erase(pl))) { return false, list; }
        ResumesNext(g, kind, offs, path, depth, EraseAll(list), Erase(pl));
        OneMore(list, pl);
        AscendingOn(AllMutableIds(list), MutableIds(pl), old(next), middle, next);
        list := list + [pl];
      }
      assert EraseAll(list) == EraseAll(list) + [];
      ok := true;
    }
  }

  lemma OneMore(list: seq<Made>, m: Made)
    ensures EraseAll(list + [m]) == EraseAll(list) + [Erase(m)]
    ensures AllMutableIds(list + [m]) == AllMutableIds(list) + MutableIds(m)
  {
    assert (list + [m])[..|list|] == list;
  }

  lemma EnterShrinks(g: Objects, path: Path, off: nat, depth: nat)
    requires Inside(g, off) && (path.Some? ==> off !in path.value)
    ensures path.Some? ==> Unvisited(g, Enter(path, off, depth)) < Unvisited(g, path)
  {
    if path.Some? {
      assert off in Unvisited(g, path) && off !in Unvisited(g, Enter(path, off, depth));
    }
  }

  /** After the elements in `list`, what remains to decode decides the whole. */
  predicate Resumes(g: Objects, kind: Kind, offs: seq<nat>, path: Path, depth: nat, list: seq<Value>)
    requires (path.None? ==> depth <= SHALLOW + 1)
  {
    && |list| <= |offs|
    && var whole := DecodeAll(g, kind, offs, 0, path, depth);
    var rest := DecodeAll(g, kind, offs, |list|, path, depth);
    && (whole.Some? <==> rest.Some?)
    && (whole.Some? ==> whole.value == list + rest.value)
  }

  lemma ResumesNext(g: Objects, kind: Kind, offs: seq<nat>, path: Path, depth: nat,
                    list: seq<Value>, v: Value)
    requires (path.None? ==> depth <= SHALLOW + 1)
    requires Resumes(g, kind, offs, path, depth, list) && |list| < |offs|
    requires Decode(g, offs[|list|], path, depth) == Some(v)
    requires IsKey(kind, |list|, |offs|) ==> Primitive(v)
    ensures Resumes(g, kind, offs, path, depth, list + [v])
  {
    var rest := DecodeAll(g, kind, offs, |list| + 1, path, depth);
    if rest.Some? {
      assert list + ([v] + rest.value) == (list + [v]) + rest.value;
    }
  }
}
