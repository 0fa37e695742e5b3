/**
 * What the types of m2c/types.py say, as values: which kinds, signs and sizes are left for a type, what two
 * types have in common, and a union-find whose links are given by numbers.
 */
module TypeStore {
  import opened Wrappers

  datatype Kind = Int | Ptr | Float | Fn | Void | Array | Struct

  datatype Sign = Signed | Unsigned

  type StructId = nat

  type DataId = nat

  type TypeId = nat

  type SigId = nat

  type ParamId = nat

  const ANY_SIGN: set<Sign> := {Signed, Unsigned}

  function FirstOf<T>(a: Option<T>, b: Option<T>): Option<T> {
    if a.Some? then a else b
  }

  // ----- what is known of one type -----

  datatype Info = Info(kind: set<Kind>, likelyKind: set<Kind>, sizeBits: Option<nat>, sign: set<Sign>,
                       ptrTo: Option<TypeId>, fnSig: Option<SigId>, arrayDim: Option<nat>, struct: Option<StructId>,
                       enum: Option<nat>, newFieldWithin: set<StructId>)

  /** What the factory functions of the source establish. */
  predicate Sound(i: Info) {
    && i.kind != {} && i.likelyKind <= i.kind && i.sign != {}
    && (i.sign != ANY_SIGN ==> i.kind <= {Int, Ptr})
    && (i.enum.Some? ==> i.kind == {Int})
    && (i.arrayDim.Some? ==> i.kind == {Ptr} || i.kind == {Array})
  }

  /** The sizes, in bits, a kind can have. */
  predicate KindFits(kind: Kind, sizeBits: Option<nat>) {
    sizeBits.None? || match kind
      case Float => sizeBits.value == 32 || sizeBits.value == 64
      case Ptr => sizeBits.value == 32
      case Fn => false
      case Void => sizeBits.value == 0
      case _ => true
  }

  /** The kinds both allow, at the size either knows. */
  function CommonKind(x: Info, y: Info): set<Kind> {
    set k | k in x.kind && k in y.kind && KindFits(k, FirstOf(x.sizeBits, y.sizeBits))
  }

  predicate NoClash<T(==)>(a: Option<T>, b: Option<T>) {
    a.Some? && b.Some? ==> a == b
  }

  /** The two may be one type, as far as their own data tells. */
  predicate Compatible(x: Info, y: Info) {
    && CommonKind(x, y) != {} && x.sign * y.sign != {}
    && NoClash(x.sizeBits, y.sizeBits) && NoClash(x.struct, y.struct) && NoClash(x.enum, y.enum)
    && (CommonKind(x, y) == {Array} ==> NoClash(x.arrayDim, y.arrayDim))
    && !(y.struct.Some? && y.struct.value in x.newFieldWithin) && !(x.struct.Some? && x.struct.value in y.newFieldWithin)
  }

  /** What is known once both are one type; pointers to arrays of different sizes lose the size. */
  function Merged(x: Info, y: Info): Info {
    var kind := CommonKind(x, y);
    Info(kind, x.likelyKind * y.likelyKind * kind, if kind == {Ptr} then Some(32) else FirstOf(x.sizeBits, y.sizeBits),
         x.sign * y.sign, FirstOf(x.ptrTo, y.ptrTo), FirstOf(x.fnSig, y.fnSig),
         if NoClash(x.arrayDim, y.arrayDim) then FirstOf(x.arrayDim, y.arrayDim) else Some(0),
         FirstOf(x.struct, y.struct), FirstOf(x.enum, y.enum), x.newFieldWithin + y.newFieldWithin)
  }

  /** `b` says at least as much as `a`: kinds and signs have only shrunk, a known size is unchanged. */
  predicate Sharper(a: Info, b: Info) {
    && b.kind <= a.kind && b.likelyKind <= a.likelyKind && b.sign <= a.sign
    && (a.sizeBits.Some? ==> b.sizeBits == a.sizeBits)
    && (a.struct.Some? ==> b.struct == a.struct) && (a.enum.Some? ==> b.enum == a.enum)
    && a.newFieldWithin <= b.newFieldWithin
  }

  lemma MergedIsSharper(x: Info, y: Info)
    requires Compatible(x, y) && Sound(x) && Sound(y)
    ensures Sound(Merged(x, y)) && Sharper(x, Merged(x, y)) && Sharper(y, Merged(x, y))
  {
    MergedIsSound(x, y);
    assert CommonKind(x, y) <= x.kind && CommonKind(x, y) <= y.kind;
    if CommonKind(x, y) == {Ptr} {
      assert Ptr in CommonKind(x, y);
    }
  }

  lemma MergedIsSound(x: Info, y: Info)
    requires Compatible(x, y) && Sound(x) && Sound(y)
    ensures Sound(Merged(x, y))
  {
    SingleKind(x, y, Int);
    SingleKind(x, y, Ptr);
    SingleKind(x, y, Array);
    assert CommonKind(x, y) <= x.kind && CommonKind(x, y) <= y.kind;
    SignsNarrow(x.sign, y.sign);
  }

  /** The source's own assertions: a sign needs an integer or pointer, an enum an integer, and so on. */
  lemma KindAssertions(x: Info, y: Info)
    requires CommonKind(x, y) != {} && Sound(x) && Sound(y)
    ensures x.sign * y.sign != ANY_SIGN ==> CommonKind(x, y) * {Int, Ptr} != {}
    ensures x.enum.Some? || y.enum.Some? ==> CommonKind(x, y) == {Int}
    ensures x.arrayDim.Some? && y.arrayDim.Some? ==> CommonKind(x, y) == {Array} || CommonKind(x, y) == {Ptr}
  {
    SingleKind(x, y, Int);
    SingleKind(x, y, Ptr);
    SingleKind(x, y, Array);
    SignsNarrow(x.sign, y.sign);
    var k :| k in CommonKind(x, y);
    assert k in x.kind && k in y.kind;
    if x.sign != ANY_SIGN || y.sign != ANY_SIGN {
      assert k in {Int, Ptr};
      assert k in CommonKind(x, y) * {Int, Ptr};
    }
  }

  lemma SignsNarrow(a: set<Sign>, b: set<Sign>)
    ensures a * b != ANY_SIGN ==> a != ANY_SIGN || b != ANY_SIGN
  {
    assert ANY_SIGN * ANY_SIGN == ANY_SIGN;
  }

  /** When either side allows one kind only, that is the common one. */
  lemma SingleKind(x: Info, y: Info, k: Kind)
    requires CommonKind(x, y) != {}
    ensures x.kind == {k} || y.kind == {k} ==> CommonKind(x, y) == {k}
  {
    if x.kind == {k} || y.kind == {k} {
      var other :| other in CommonKind(x, y);
      assert other == k;
    }
  }

  /** Drops the kinds that do not come in this size. */
  function Narrow(kinds: set<Kind>, sizeBits: Option<nat>): (r: set<Kind>)
    ensures forall k :: k in r <==> k in kinds && KindFits(k, sizeBits)
  {
    var noFloat := if sizeBits !in {None, Some(32), Some(64)} then kinds - {Float} else kinds;
    var noPtr := if sizeBits !in {None, Some(32)} then noFloat - {Ptr} else noFloat;
    var noFn := if sizeBits !in {None} then noPtr - {Fn} else noPtr;
    if sizeBits !in {None, Some(0)} then noFn - {Void} else noFn
  }

  /** The checks made before anything is unified. */
  predicate MayAgree(x: Info, y: Info)
    ensures MayAgree(x, y) <==> NoClash(x.sizeBits, y.sizeBits) && CommonKind(x, y) != {} && x.sign * y.sign != {}
  {
    if x.sizeBits.Some? && y.sizeBits.Some? && x.sizeBits != y.sizeBits then false
    else
      var kind := Narrow(x.kind * y.kind, FirstOf(x.sizeBits, y.sizeBits));
      assert kind == CommonKind(x, y);
      !(kind == {} || x.sign * y.sign == {})
  }

  /** The checks made after the parts were unified, and what the merged type is if they succeed. */
  function Combine(x: Info, y: Info): (r: Option<Info>)
    requires Sound(x) && Sound(y) && MayAgree(x, y)
    ensures r.Some? <==> Compatible(x, y)
    ensures r.Some? ==> r.value == Merged(x, y)
  {
    var size := FirstOf(x.sizeBits, y.sizeBits);
    var kind := Narrow(x.kind * y.kind, size);
    assert kind == CommonKind(x, y);
    KindAssertions(x, y);
    var bothArrays := x.arrayDim.Some? && y.arrayDim.Some? && x.arrayDim != y.arrayDim;
    assert bothArrays ==> kind == {Array} || kind == {Ptr};
    if bothArrays && kind == {Array} then None
    else if x.struct.Some? && y.struct.Some? && x.struct != y.struct then None
    else if x.enum.Some? && y.enum.Some? && x.enum != y.enum then None
    else if (y.struct.Some? && y.struct.value in x.newFieldWithin) || (x.struct.Some? && x.struct.value in y.newFieldWithin)
    then None  // no recursive structs
    else
      Some(Info(kind, x.likelyKind * y.likelyKind * kind, if kind == {Ptr} then Some(32) else size, x.sign * y.sign,
                FirstOf(x.ptrTo, y.ptrTo), FirstOf(x.fnSig, y.fnSig),
                if bothArrays then Some(0) else FirstOf(x.arrayDim, y.arrayDim),
                FirstOf(x.struct, y.struct), FirstOf(x.enum, y.enum), x.newFieldWithin + y.newFieldWithin))
  }

  /** Whether two types are compatible, and what their union is known to be, does not depend on their order. */
  lemma OrderIsIrrelevant(x: Info, y: Info)
    requires NoClash(x.sizeBits, y.sizeBits)
    ensures Compatible(x, y) <==> Compatible(y, x)
    ensures Compatible(x, y) ==> Merged(x, y).(ptrTo := None, fnSig := None) == Merged(y, x).(ptrTo := None, fnSig := None)
  {
    assert FirstOf(x.sizeBits, y.sizeBits) == FirstOf(y.sizeBits, x.sizeBits);
    assert CommonKind(x, y) == CommonKind(y, x);
    assert x.sign * y.sign == y.sign * x.sign;
    assert x.likelyKind * y.likelyKind == y.likelyKind * x.likelyKind;
    assert x.newFieldWithin + y.newFieldWithin == y.newFieldWithin + x.newFieldWithin;
  }

  /** Both point to something, or both have a signature, so that unifying them goes further. */
  predicate PartsMeet(x: Info, y: Info) {
    (x.ptrTo.Some? && y.ptrTo.Some?) || (x.fnSig.Some? && y.fnSig.Some?)
  }

  /** What unifying two different types comes to: all that both know, or no change to either. */
  predicate UnifyOutcome(ok: bool, x: Info, y: Info, x': Info) {
    && (ok ==> Compatible(x, y) && x' == Merged(x, y))
    && (!ok ==> x' == x)
    && (!PartsMeet(x, y) ==> ok == Compatible(x, y))
  }

  /** The kinds that come in a size: floats of 32 or 64 bits, pointers of 32, void of none, functions of no known size. */
  lemma SizesOfKinds(sizeBits: nat)
    ensures KindFits(Float, Some(sizeBits)) <==> sizeBits == 32 || sizeBits == 64
    ensures KindFits(Ptr, Some(sizeBits)) <==> sizeBits == 32
    ensures KindFits(Void, Some(sizeBits)) <==> sizeBits == 0
    ensures !KindFits(Fn, Some(sizeBits))
    ensures KindFits(Int, Some(sizeBits)) && KindFits(Array, Some(sizeBits)) && KindFits(Struct, Some(sizeBits))
    ensures forall k :: KindFits(k, None)
  {
  }

  /** Nothing but kind, size and perhaps parts is known. */
  predicate OnlyKind(x: Info, kind: Kind, sizeBits: Option<nat>) {
    && x.kind == {kind} && x.sizeBits == sizeBits && x.sign == ANY_SIGN
    && x.arrayDim.None? && x.struct.None? && x.enum.None? && x.newFieldWithin == {}
  }

  /** Which types of one kind and size unify with another such type, if their parts do. */
  lemma SameKindUnifies(x: Info, y: Info, kind: Kind, sizeBits: Option<nat>)
    requires OnlyKind(x, kind, sizeBits) && OnlyKind(y, kind, sizeBits)
    ensures sizeBits.None? ==> Compatible(x, y)
    ensures sizeBits.Some? && kind == Float ==> (Compatible(x, y) <==> sizeBits.value == 32 || sizeBits.value == 64)
    ensures sizeBits.Some? && kind == Ptr ==> (Compatible(x, y) <==> sizeBits.value == 32)
    ensures sizeBits.Some? && kind == Void ==> (Compatible(x, y) <==> sizeBits.value == 0)
    ensures sizeBits.Some? && kind == Fn ==> !Compatible(x, y)
    ensures kind == Int || kind == Array || kind == Struct ==> Compatible(x, y)
  {
    assert kind in CommonKind(x, y) <==> KindFits(kind, sizeBits);
    assert CommonKind(x, y) <= {kind};
    assert Signed in x.sign * y.sign;
  }

  /** Some kind is left to both, and comes in the size that either knows. */
  predicate ShareKind(x: Info, y: Info) {
    var size := FirstOf(x.sizeBits, y.sizeBits);
    || Int in x.kind * y.kind || Array in x.kind * y.kind || Struct in x.kind * y.kind
    || (Float in x.kind * y.kind && (size.None? || size.value == 32 || size.value == 64))
    || (Ptr in x.kind * y.kind && (size.None? || size.value == 32))
    || (Void in x.kind * y.kind && (size.None? || size.value == 0))
    || (Fn in x.kind * y.kind && size.None?)
  }

  /** The types do not contradict each other. */
  predicate NoContradiction(x: Info, y: Info) {
    && ShareKind(x, y) && (exists s :: s in x.sign && s in y.sign)
    && (x.sizeBits.Some? && y.sizeBits.Some? ==> x.sizeBits.value == y.sizeBits.value)
    && (x.struct.Some? && y.struct.Some? ==> x.struct.value == y.struct.value)
    && (x.enum.Some? && y.enum.Some? ==> x.enum.value == y.enum.value)
    && (x.arrayDim.Some? && y.arrayDim.Some? && x.arrayDim.value != y.arrayDim.value ==> x.kind != {Array} && y.kind != {Array})
    && (y.struct.Some? ==> y.struct.value !in x.newFieldWithin) && (x.struct.Some? ==> x.struct.value !in y.newFieldWithin)
  }

  /** `z` knows what `x` and `y` know together, and no more. */
  ghost predicate KnowsBoth(x: Info, y: Info, z: Info) {
    && (forall k :: k in z.kind <==> k in x.kind && k in y.kind && KindFits(k, if x.sizeBits.Some? then x.sizeBits else y.sizeBits))
    && (forall k :: k in z.likelyKind <==> k in x.likelyKind && k in y.likelyKind && k in z.kind)
    && (forall s :: s in z.sign <==> s in x.sign && s in y.sign)
    && (z.kind == {Ptr} ==> z.sizeBits == Some(32))
    && (z.kind != {Ptr} ==> z.sizeBits == if x.sizeBits.Some? then x.sizeBits else y.sizeBits)
    && (z.ptrTo == if x.ptrTo.Some? then x.ptrTo else y.ptrTo) && (z.fnSig == if x.fnSig.Some? then x.fnSig else y.fnSig)
    && (x.arrayDim.Some? && y.arrayDim.Some? && x.arrayDim.value != y.arrayDim.value ==> z.arrayDim == Some(0))
    && (x.arrayDim.None? || y.arrayDim.None? || x.arrayDim.value == y.arrayDim.value ==>
         z.arrayDim == if x.arrayDim.Some? then x.arrayDim else y.arrayDim)
    && (x.struct.Some? ==> z.struct == x.struct) && (y.struct.Some? ==> z.struct == y.struct)
    && (z.struct.Some? ==> x.struct.Some? || y.struct.Some?)
    && (x.enum.Some? ==> z.enum == x.enum) && (y.enum.Some? ==> z.enum == y.enum)
    && (z.enum.Some? ==> x.enum.Some? || y.enum.Some?)
    && (forall s :: s in z.newFieldWithin <==> s in x.newFieldWithin || s in y.newFieldWithin)
  }

  lemma CommonKindIs(x: Info, y: Info)
    ensures CommonKind(x, y) != {} <==> ShareKind(x, y)
  {
    if CommonKind(x, y) != {} {
      var k :| k in CommonKind(x, y);
      assert k in x.kind * y.kind && KindFits(k, FirstOf(x.sizeBits, y.sizeBits));
      assert k.Int? || k.Ptr? || k.Float? || k.Fn? || k.Void? || k.Array? || k.Struct?;
    }
    if ShareKind(x, y) {
      var k :| k in x.kind * y.kind && KindFits(k, FirstOf(x.sizeBits, y.sizeBits));
      assert k in CommonKind(x, y);
    }
  }

  lemma CompatibleIs(x: Info, y: Info)
    requires Sound(x) && Sound(y)
    ensures Compatible(x, y) <==> NoContradiction(x, y)
  {
    CommonKindIs(x, y);
    if CommonKind(x, y) != {} {
      SingleKind(x, y, Array);
    }
    if s :| s in x.sign && s in y.sign {
      assert s in x.sign * y.sign;
    }
  }

  /** What a call of `unify` on two separate types means, for the types themselves. */
  ghost predicate OutcomeMeans(ok: bool, x: Info, y: Info, x': Info) {
    && (ok ==> NoContradiction(x, y) && KnowsBoth(x, y, x'))
    && (!ok ==> x' == x)
    && (NoContradiction(x, y) && !PartsMeet(x, y) ==> ok)
  }

  lemma OutcomeIs(ok: bool, x: Info, y: Info, x': Info)
    requires Sound(x) && Sound(y) && UnifyOutcome(ok, x, y, x')
    ensures OutcomeMeans(ok, x, y, x')
  {
    CompatibleIs(x, y);
    if ok {
      assert forall s :: s in x.sign * y.sign <==> s in x.sign && s in y.sign;
    }
  }

  /** Two separate types with the same data unify exactly when some kind fits the size; two `f128` never do. */
  lemma CopiesUnify(x: Info)
    requires Sound(x) && (x.struct.Some? ==> x.struct.value !in x.newFieldWithin)
    ensures Compatible(x, x) <==> exists k :: k in x.kind && KindFits(k, x.sizeBits)
    ensures x.kind == {Float} && x.sizeBits == Some(128) ==> !Compatible(x, x)
  {
    assert x.sign * x.sign == x.sign;
    assert forall k :: k in CommonKind(x, x) <==> k in x.kind && KindFits(k, x.sizeBits);
  }

  // ----- parent links as a value -----

  type Links = seq<Option<DataId>>

  /** Every link leads to a node of smaller depth, so following links ends. */
  ghost predicate GoodDepth(links: Links, depth: seq<nat>) {
    |depth| == |links| && forall t: DataId {:trigger LinkOk(links, depth, t)} :: t < |links| ==> LinkOk(links, depth, t)
  }

  ghost predicate LinkOk(links: Links, depth: seq<nat>, t: DataId)
    requires |depth| == |links| && t < |links|
  {
    links[t].Some? ==> links[t].value < |links| && depth[links[t].value] < depth[t]
  }

  /** The end of the links from `t`. */
  ghost function Root(links: Links, depth: seq<nat>, t: DataId): (r: DataId)
    requires GoodDepth(links, depth) && t < |links|
    ensures r < |links| && links[r].None? && depth[r] <= depth[t]
    ensures links[t].None? <==> r == t
    decreases depth[t]
  {
    assert LinkOk(links, depth, t);
    if links[t].None? then t else Root(links, depth, links[t].value)
  }

  lemma CompressKeepsDepth(links: Links, depth: seq<nat>, td: DataId)
    requires GoodDepth(links, depth) && td < |links| && links[td].Some?
    ensures GoodDepth(links[td := Some(Root(links, depth, td))], depth)
  {
    var links' := links[td := Some(Root(links, depth, td))];
    forall t: DataId | t < |links'|
      ensures LinkOk(links', depth, t)
    {
      assert LinkOk(links, depth, t) && LinkOk(links, depth, td);
    }
  }

  /** Linking a node straight to its root changes no root. */
  lemma {:induction false} CompressKeepsRoot(links: Links, depth: seq<nat>, td: DataId, t: DataId)
    requires GoodDepth(links, depth) && td < |links| && t < |links| && links[td].Some?
    ensures GoodDepth(links[td := Some(Root(links, depth, td))], depth)
    ensures Root(links[td := Some(Root(links, depth, td))], depth, t) == Root(links, depth, t)
    decreases depth[t]
  {
    var root := Root(links, depth, td);
    var links' := links[td := Some(root)];
    CompressKeepsDepth(links, depth, td);
    assert LinkOk(links, depth, t);
    if t == td {
      assert Root(links', depth, root) == root;
    } else if links[t].Some? {
      CompressKeepsRoot(links, depth, td, links[t].value);
    }
  }

  /** Both link maps lead every node to the same root. */
  ghost predicate SameRoots(a: Links, b: Links, depth: seq<nat>) {
    && |a| == |b| && GoodDepth(a, depth) && GoodDepth(b, depth)
    && forall t: DataId {:trigger SameRootAt(a, b, depth, t)} :: t < |a| ==> SameRootAt(a, b, depth, t)
  }

  ghost predicate SameRootAt(a: Links, b: Links, depth: seq<nat>, t: DataId)
    requires GoodDepth(a, depth) && GoodDepth(b, depth) && t < |a| && t < |b|
  {
    Root(b, depth, t) == Root(a, depth, t) && (b[t].None? <==> a[t].None?)
  }

  lemma SameRootsAt(a: Links, b: Links, depth: seq<nat>, t: DataId)
    requires SameRoots(a, b, depth) && t < |a|
    ensures GoodDepth(a, depth) && GoodDepth(b, depth) && t < |b|
    ensures Root(b, depth, t) == Root(a, depth, t) && (b[t].None? <==> a[t].None?)
  {
    assert SameRootAt(a, b, depth, t);
  }

  lemma SameRootsReflexive(a: Links, depth: seq<nat>)
    requires GoodDepth(a, depth)
    ensures SameRoots(a, a, depth)
  {
  }

  lemma SameRootsTransitive(a: Links, b: Links, c: Links, depth: seq<nat>)
    requires SameRoots(a, b, depth) && SameRoots(b, c, depth)
    ensures SameRoots(a, c, depth)
  {
    forall t: DataId | t < |a|
      ensures SameRootAt(a, c, depth, t)
    {
      assert SameRootAt(a, b, depth, t) && SameRootAt(b, c, depth, t);
    }
  }

  lemma CompressSame(before: Links, links: Links, depth: seq<nat>, td: DataId)
    requires SameRoots(before, links, depth) && td < |links| && links[td].Some?
    ensures SameRoots(before, links[td := Some(Root(links, depth, td))], depth)
  {
    var links' := links[td := Some(Root(links, depth, td))];
    CompressKeepsDepth(links, depth, td);
    forall t: DataId | t < |links|
      ensures SameRootAt(before, links', depth, t)
    {
      assert SameRootAt(before, links, depth, t);
      CompressKeepsRoot(links, depth, td, t);
    }
  }

  /** The depths after the root `y` was put under the root `x`. */
  ghost function Relinked(depth: seq<nat>, x: DataId): seq<nat>
    requires x < |depth|
  {
    seq(|depth|, t requires 0 <= t < |depth| => if t == x then depth[x] else depth[t] + depth[x] + 1)
  }

  lemma LinkKeepsDepth(links: Links, depth: seq<nat>, x: DataId, y: DataId)
    requires GoodDepth(links, depth) && x < |links| && y < |links|
    requires links[x].None? && links[y].None? && x != y
    ensures GoodDepth(links[y := Some(x)], Relinked(depth, x))
  {
    var links', depth' := links[y := Some(x)], Relinked(depth, x);
    forall t: DataId | t < |links|
      ensures LinkOk(links', depth', t)
    {
      assert LinkOk(links, depth, t);
    }
  }

  /** The root `r` after `y` was put under `x`. */
  function Joined(r: DataId, x: DataId, y: DataId): DataId {
    if r == y then x else r
  }

  /** Putting the root `y` under the root `x` merges the two classes and nothing else. */
  lemma {:induction false} LinkRoots(links: Links, depth: seq<nat>, x: DataId, y: DataId, t: DataId)
    requires GoodDepth(links, depth) && x < |links| && y < |links| && t < |links|
    requires links[x].None? && links[y].None? && x != y
    ensures GoodDepth(links[y := Some(x)], Relinked(depth, x))
    ensures Root(links[y := Some(x)], Relinked(depth, x), t) ==
      Joined(Root(links, depth, t), x, y)
    decreases depth[t]
  {
    var links', depth' := links[y := Some(x)], Relinked(depth, x);
    LinkKeepsDepth(links, depth, x, y);
    assert LinkOk(links, depth, t);
    if t == y {
      assert Root(links', depth', x) == x;
    } else if links[t].Some? {
      LinkRoots(links, depth, x, y, links[t].value);
    }
  }

  // ----- the state of all types as a value -----

  datatype SigView = SigView(returnType: TypeId, params: seq<ParamId>, paramsKnown: bool, isVariadic: bool)

  /** Every type datum, type, signature and parameter, by number. */
  datatype Memory = Memory(links: Links, depth: seq<nat>, infos: seq<Info>, dataOf: seq<DataId>, sigs: seq<SigView>,
                           typeOf: seq<TypeId>, names: seq<string>)

  ghost predicate InfoOk(m: Memory, t: DataId)
    requires t < |m.infos|
  {
    && Sound(m.infos[t])
    && (m.infos[t].ptrTo.Some? ==> m.infos[t].ptrTo.value < |m.dataOf|)
    && (m.infos[t].fnSig.Some? ==> m.infos[t].fnSig.value < |m.sigs|)
  }

  ghost predicate TypeOk(m: Memory, ty: TypeId)
    requires ty < |m.dataOf|
  {
    m.dataOf[ty] < |m.links|
  }

  ghost predicate SigOk(m: Memory, sg: SigId, maxParams: nat)
    requires sg < |m.sigs|
  {
    && m.sigs[sg].returnType < |m.dataOf| && |m.sigs[sg].params| <= maxParams
    && forall p :: p in m.sigs[sg].params ==> p < |m.names|
  }

  ghost predicate ParamOk(m: Memory, p: ParamId)
    requires p < |m.typeOf|
  {
    m.typeOf[p] < |m.dataOf|
  }

  /** Links are acyclic, the data is sound, and all references lead to known objects. */
  ghost predicate Good(m: Memory, maxParams: nat) {
    && GoodDepth(m.links, m.depth) && |m.infos| == |m.links| && |m.typeOf| == |m.names|
    && (forall t: DataId {:trigger InfoOk(m, t)} :: t < |m.infos| ==> InfoOk(m, t))
    && (forall ty: TypeId {:trigger TypeOk(m, ty)} :: ty < |m.dataOf| ==> TypeOk(m, ty))
    && (forall sg: SigId {:trigger SigOk(m, sg, maxParams)} :: sg < |m.sigs| ==> SigOk(m, sg, maxParams))
    && (forall p: ParamId {:trigger ParamOk(m, p)} :: p < |m.typeOf| ==> ParamOk(m, p))
  }

  /** The representative of `t`. */
  ghost function Rep(m: Memory, t: DataId): (r: DataId)
    requires GoodDepth(m.links, m.depth) && t < |m.links|
    ensures r < |m.links| && m.links[r].None? && (m.links[t].None? <==> r == t)
  {
    Root(m.links, m.depth, t)
  }

  ghost predicate Typed(m: Memory, ty: TypeId) {
    GoodDepth(m.links, m.depth) && |m.infos| == |m.links| && ty < |m.dataOf| && TypeOk(m, ty)
  }

  ghost function ClassOf(m: Memory, ty: TypeId): (r: DataId)
    requires Typed(m, ty)
    ensures r < |m.links| && m.links[r].None?
  {
    Rep(m, m.dataOf[ty])
  }

  ghost function Known(m: Memory, ty: TypeId): Info
    requires Typed(m, ty)
  {
    m.infos[ClassOf(m, ty)]
  }

  // ----- changes that change nothing -----

  ghost predicate SameKeys(a: Memory, b: Memory) {
    && GoodDepth(a.links, a.depth) && GoodDepth(b.links, b.depth)
    && |a.infos| == |b.infos| == |a.links| == |b.links| && |b.dataOf| == |a.dataOf|
    && |b.sigs| == |a.sigs| && |b.names| == |a.names| && b.typeOf == a.typeOf
  }

  ghost predicate SameClassAt(a: Memory, b: Memory, ty: TypeId)
    requires SameKeys(a, b) && ty < |a.dataOf|
  {
    TypeOk(a, ty) && TypeOk(b, ty) && ClassOf(b, ty) == ClassOf(a, ty)
  }

  /** Only links were shortened: all representatives, and all that is known, are the same. */
  ghost predicate Equivalent(a: Memory, b: Memory) {
    && SameKeys(a, b) && b.depth == a.depth && b.infos == a.infos && b.sigs == a.sigs && b.names == a.names
    && SameRoots(a.links, b.links, a.depth)
    && forall ty: TypeId {:trigger SameClassAt(a, b, ty)} :: ty < |a.dataOf| ==> SameClassAt(a, b, ty)
  }

  lemma EquivalentReflexive(m: Memory, maxParams: nat)
    requires Good(m, maxParams)
    ensures Equivalent(m, m)
  {
    SameRootsReflexive(m.links, m.depth);
    forall ty: TypeId | ty < |m.dataOf|
      ensures SameClassAt(m, m, ty)
    {
      assert TypeOk(m, ty);
    }
  }

  lemma EquivalentTransitive(a: Memory, b: Memory, c: Memory)
    requires Equivalent(a, b) && Equivalent(b, c)
    ensures Equivalent(a, c)
  {
    SameRootsTransitive(a.links, b.links, c.links, a.depth);
    forall ty: TypeId | ty < |a.dataOf|
      ensures SameClassAt(a, c, ty)
    {
      assert SameClassAt(a, b, ty) && SameClassAt(b, c, ty);
    }
  }

  lemma EquivalentGood(a: Memory, b: Memory, maxParams: nat)
    requires Good(a, maxParams) && Equivalent(a, b)
    ensures Good(b, maxParams)
  {
    forall t: DataId | t < |b.infos|
      ensures InfoOk(b, t)
    {
      assert InfoOk(a, t);
    }
    forall ty: TypeId | ty < |b.dataOf|
      ensures TypeOk(b, ty)
    {
      assert SameClassAt(a, b, ty);
    }
    forall sg: SigId | sg < |b.sigs|
      ensures SigOk(b, sg, maxParams)
    {
      assert SigOk(a, sg, maxParams);
    }
    forall p: ParamId | p < |b.typeOf|
      ensures ParamOk(b, p)
    {
      assert ParamOk(a, p);
    }
  }

  /** Pointing a node straight at its root. */
  lemma Compressed(m: Memory, td: DataId, maxParams: nat)
    requires Good(m, maxParams) && td < |m.links| && m.links[td].Some?
    ensures var m' := m.(links := m.links[td := Some(Rep(m, td))]); Equivalent(m, m') && Good(m', maxParams)
  {
    var m' := m.(links := m.links[td := Some(Rep(m, td))]);
    SameRootsReflexive(m.links, m.depth);
    CompressSame(m.links, m.links, m.depth, td);
    forall ty: TypeId | ty < |m.dataOf|
      ensures SameClassAt(m, m', ty)
    {
      assert TypeOk(m, ty);
      SameRootsAt(m.links, m'.links, m.depth, m.dataOf[ty]);
    }
    EquivalentGood(m, m', maxParams);
  }

  /** Letting a type remember its representative. */
  lemma Remembered(m: Memory, ty: TypeId, maxParams: nat)
    requires Good(m, maxParams) && ty < |m.dataOf| && TypeOk(m, ty)
    ensures var m' := m.(dataOf := m.dataOf[ty := ClassOf(m, ty)]);
      Equivalent(m, m') && Good(m', maxParams) && ClassOf(m', ty) == ClassOf(m, ty)
  {
    var m' := m.(dataOf := m.dataOf[ty := ClassOf(m, ty)]);
    SameRootsReflexive(m.links, m.depth);
    forall other: TypeId | other < |m.dataOf|
      ensures SameClassAt(m, m', other)
    {
      assert TypeOk(m, other);
    }
    EquivalentGood(m, m', maxParams);
  }

  /** A root stays one. */
  lemma EquivalentKept(a: Memory, b: Memory, t: DataId)
    requires Equivalent(a, b) && t < |a.links| && a.links[t].None?
    ensures b.links[t].None? && b.infos[t] == a.infos[t]
  {
    SameRootsAt(a.links, b.links, a.depth, t);
  }

  // ----- what may come after what -----

  /** What is known of the class of `t` has only grown, and that class has moved as a whole. */
  ghost predicate FinerAt(a: Memory, b: Memory, t: DataId)
    requires SameKeys(a, b) && t < |a.links|
  {
    Sharper(a.infos[Rep(a, t)], b.infos[Rep(b, t)]) && Rep(b, t) == Rep(b, Rep(a, t))
  }

  /** A type stays with its class. */
  ghost predicate TypeFollows(a: Memory, b: Memory, ty: TypeId)
    requires SameKeys(a, b) && ty < |a.dataOf|
  {
    TypeOk(a, ty) && TypeOk(b, ty) && ClassOf(b, ty) == Rep(b, ClassOf(a, ty))
  }

  /** Signatures only gain parameters, and one whose parameters are known is final. */
  predicate SigGrows(a: SigView, b: SigView) {
    b.returnType == a.returnType && a.params <= b.params && (a.isVariadic ==> b.isVariadic) && (a.paramsKnown ==> b == a)
  }

  ghost predicate SigAdvances(a: Memory, b: Memory, sg: SigId)
    requires SameKeys(a, b) && sg < |a.sigs|
  {
    SigGrows(a.sigs[sg], b.sigs[sg])
  }

  ghost predicate NameKept(a: Memory, b: Memory, p: ParamId)
    requires SameKeys(a, b) && p < |a.names|
  {
    a.names[p] != "" ==> b.names[p] == a.names[p]
  }

  /** Classes only merge and refine, types stay with their class, signatures and names are only completed. */
  ghost predicate Advances(a: Memory, b: Memory) {
    && SameKeys(a, b)
    && (forall t: DataId {:trigger FinerAt(a, b, t)} :: t < |a.links| ==> FinerAt(a, b, t))
    && (forall ty: TypeId {:trigger TypeFollows(a, b, ty)} :: ty < |a.dataOf| ==> TypeFollows(a, b, ty))
    && (forall sg: SigId {:trigger SigAdvances(a, b, sg)} :: sg < |a.sigs| ==> SigAdvances(a, b, sg))
    && (forall p: ParamId {:trigger NameKept(a, b, p)} :: p < |a.names| ==> NameKept(a, b, p))
  }

  lemma EquivalentAdvances(a: Memory, b: Memory, maxParams: nat)
    requires Equivalent(a, b) && Good(a, maxParams)
    ensures Advances(a, b)
  {
    forall t: DataId | t < |a.links|
      ensures FinerAt(a, b, t)
    {
      SameRootsAt(a.links, b.links, a.depth, t);
      SameRootsAt(a.links, b.links, a.depth, Rep(a, t));
    }
    forall ty: TypeId | ty < |a.dataOf|
      ensures TypeFollows(a, b, ty)
    {
      assert SameClassAt(a, b, ty);
    }
  }

  lemma AdvancesReflexive(m: Memory, maxParams: nat)
    requires Good(m, maxParams)
    ensures Advances(m, m)
  {
    EquivalentReflexive(m, maxParams);
    EquivalentAdvances(m, m, maxParams);
  }

  lemma AdvancesTransitive(a: Memory, b: Memory, c: Memory)
    requires Advances(a, b) && Advances(b, c)
    ensures Advances(a, c)
  {
    forall t: DataId | t < |a.links|
      ensures FinerAt(a, c, t)
    {
      assert FinerAt(a, b, t) && FinerAt(b, c, t) && FinerAt(b, c, Rep(a, t));
    }
    forall ty: TypeId | ty < |a.dataOf|
      ensures TypeFollows(a, c, ty)
    {
      assert TypeFollows(a, b, ty) && TypeFollows(b, c, ty);
      assert FinerAt(b, c, ClassOf(a, ty));
    }
    forall sg: SigId | sg < |a.sigs|
      ensures SigAdvances(a, c, sg)
    {
      assert SigAdvances(a, b, sg) && SigAdvances(b, c, sg);
    }
    forall p: ParamId | p < |a.names|
      ensures NameKept(a, c, p)
    {
      assert NameKept(a, b, p) && NameKept(b, c, p);
    }
  }

  ghost predicate SameClass(m: Memory, s: TypeId, t: TypeId) {
    && Typed(m, s) && Typed(m, t) && ClassOf(m, s) == ClassOf(m, t)
  }

  /** Types once equal stay equal. */
  lemma UnifiedForGood(a: Memory, b: Memory, s: TypeId, t: TypeId)
    requires Advances(a, b) && SameClass(a, s, t)
    ensures SameClass(b, s, t)
  {
    assert TypeFollows(a, b, s) && TypeFollows(a, b, t);
  }

  /** A type whose kind is down to one stays of that kind, and a known size is final. */
  lemma ConcreteForGood(a: Memory, b: Memory, t: DataId, maxParams: nat)
    requires Advances(a, b) && Good(b, maxParams) && t < |a.links|
    ensures |a.infos[Rep(a, t)].kind| == 1 ==> b.infos[Rep(b, t)].kind == a.infos[Rep(a, t)].kind
    ensures a.infos[Rep(a, t)].sizeBits.Some? ==> b.infos[Rep(b, t)].sizeBits == a.infos[Rep(a, t)].sizeBits
  {
    assert FinerAt(a, b, t) && InfoOk(b, Rep(b, t));
    var before, after := a.infos[Rep(a, t)].kind, b.infos[Rep(b, t)].kind;
    if |before| == 1 {
      var k :| k in after;
      assert before == {k} + (before - {k});
    }
  }

  // ----- merging two classes -----

  ghost function Linked(m: Memory, x: DataId, y: DataId, info: Info): Memory
    requires x < |m.depth| && x < |m.infos| && y < |m.links|
  {
    m.(links := m.links[y := Some(x)], depth := Relinked(m.depth, x), infos := m.infos[x := info])
  }

  lemma LinkedGood(m: Memory, x: DataId, y: DataId, info: Info, maxParams: nat)
    requires Good(m, maxParams) && x < |m.links| && y < |m.links| && x != y && m.links[x].None? && m.links[y].None?
    requires Compatible(m.infos[x], m.infos[y]) && info == Merged(m.infos[x], m.infos[y])
    ensures Good(Linked(m, x, y, info), maxParams)
  {
    var m' := Linked(m, x, y, info);
    LinkKeepsDepth(m.links, m.depth, x, y);
    assert InfoOk(m, x) && InfoOk(m, y);
    MergedIsSharper(m.infos[x], m.infos[y]);
    forall t: DataId | t < |m'.infos|
      ensures InfoOk(m', t)
    {
      assert InfoOk(m, t);
    }
    forall ty: TypeId | ty < |m'.dataOf|
      ensures TypeOk(m', ty)
    {
      assert TypeOk(m, ty);
    }
    forall sg: SigId | sg < |m'.sigs|
      ensures SigOk(m', sg, maxParams)
    {
      assert SigOk(m, sg, maxParams);
    }
    forall p: ParamId | p < |m'.typeOf|
      ensures ParamOk(m', p)
    {
      assert ParamOk(m, p);
    }
  }

  lemma LinkedAdvances(m: Memory, x: DataId, y: DataId, info: Info, maxParams: nat)
    requires Good(m, maxParams) && x < |m.links| && y < |m.links| && x != y && m.links[x].None? && m.links[y].None?
    requires Compatible(m.infos[x], m.infos[y]) && info == Merged(m.infos[x], m.infos[y])
    ensures Advances(m, Linked(m, x, y, info))
  {
    var m' := Linked(m, x, y, info);
    LinkedGood(m, x, y, info, maxParams);
    assert InfoOk(m, x) && InfoOk(m, y);
    MergedIsSharper(m.infos[x], m.infos[y]);
    forall t: DataId | t < |m.links|
      ensures FinerAt(m, m', t)
    {
      LinkRoots(m.links, m.depth, x, y, t);
      LinkRoots(m.links, m.depth, x, y, Rep(m, t));
    }
    forall ty: TypeId | ty < |m.dataOf|
      ensures TypeFollows(m, m', ty)
    {
      assert TypeOk(m, ty) && TypeOk(m', ty);
      assert FinerAt(m, m', m.dataOf[ty]);
    }
  }

  // ----- signatures -----

  ghost predicate SameParam(m: Memory, p: ParamId, q: ParamId) {
    p < |m.typeOf| && q < |m.typeOf| && SameClass(m, m.typeOf[p], m.typeOf[q])
  }

  /** Paired parameters have types of one class. */
  ghost predicate PairsAgree(m: Memory, a: seq<ParamId>, b: seq<ParamId>) {
    forall i :: 0 <= i < |a| && i < |b| ==> SameParam(m, a[i], b[i])
  }

  ghost predicate SignaturesAgree(m: Memory, s: SigId, t: SigId) {
    && s < |m.sigs| && t < |m.sigs| && SameClass(m, m.sigs[s].returnType, m.sigs[t].returnType)
    && PairsAgree(m, m.sigs[s].params, m.sigs[t].params)
  }

  /** What two types point to is one type, and so are their returned and parameter types. */
  ghost predicate PartsAgree(m: Memory, x: Info, y: Info) {
    && (x.ptrTo.Some? && y.ptrTo.Some? ==> SameClass(m, x.ptrTo.value, y.ptrTo.value))
    && (x.fnSig.Some? && y.fnSig.Some? ==> SignaturesAgree(m, x.fnSig.value, y.fnSig.value))
  }

  lemma PairsStay(a: Memory, b: Memory, s: seq<ParamId>, t: seq<ParamId>)
    requires Advances(a, b) && PairsAgree(a, s, t)
    ensures PairsAgree(b, s, t)
  {
    forall i: nat | i < |s| && i < |t|
      ensures SameParam(b, s[i], t[i])
    {
      UnifiedForGood(a, b, a.typeOf[s[i]], a.typeOf[t[i]]);
    }
  }

  lemma PairsSameLinks(a: Memory, b: Memory, s: seq<ParamId>, t: seq<ParamId>)
    requires PairsAgree(a, s, t) && b == a.(sigs := b.sigs)
    ensures PairsAgree(b, s, t)
  {
    forall i: nat | i < |s| && i < |t|
      ensures SameParam(b, s[i], t[i])
    {
      assert SameParam(a, s[i], t[i]);
    }
  }

  lemma PartsStay(a: Memory, b: Memory, x: Info, y: Info)
    requires Advances(a, b) && b.sigs == a.sigs && PartsAgree(a, x, y)
    ensures PartsAgree(b, x, y)
  {
    if x.ptrTo.Some? && y.ptrTo.Some? {
      UnifiedForGood(a, b, x.ptrTo.value, y.ptrTo.value);
    }
    if x.fnSig.Some? && y.fnSig.Some? {
      UnifiedForGood(a, b, a.sigs[x.fnSig.value].returnType, a.sigs[y.fnSig.value].returnType);
      PairsStay(a, b, a.sigs[x.fnSig.value].params, a.sigs[y.fnSig.value].params);
    }
  }

  /** One more pair of parameters, in lists that may have grown. */
  lemma PairsGrow(start: Memory, before: Memory, after: Memory, s: SigId, t: SigId, i: nat)
    requires Advances(start, before) && Advances(before, after) && s < |before.sigs| && t < |before.sigs|
    requires i < |before.sigs[s].params| && i < |before.sigs[t].params|
    ensures Advances(start, after)
    ensures before.sigs[s].params <= after.sigs[s].params && before.sigs[t].params <= after.sigs[t].params
    ensures PairsAgree(before, before.sigs[s].params[..i], before.sigs[t].params[..i]) &&
            SameParam(after, before.sigs[s].params[i], before.sigs[t].params[i])
            ==> PairsAgree(after, after.sigs[s].params[..i + 1], after.sigs[t].params[..i + 1])
  {
    AdvancesTransitive(start, before, after);
    assert SigAdvances(before, after, s) && SigAdvances(before, after, t);
    var p, q := before.sigs[s].params[..i], before.sigs[t].params[..i];
    if PairsAgree(before, p, q) {
      PairsStay(before, after, p, q);
      assert after.sigs[s].params[..i + 1] == p + [before.sigs[s].params[i]];
      assert after.sigs[t].params[..i + 1] == q + [before.sigs[t].params[i]];
    }
  }

  /** What a signature is once it has been unified with another. */
  function Completed(s: SigView, t: SigView): SigView {
    if s.paramsKnown then s
    else SigView(s.returnType, if |s.params| < |t.params| then s.params + t.params[|s.params|..] else s.params,
                 t.paramsKnown, s.isVariadic || t.isVariadic)
  }

  /**
   * `r` is `s` after it was unified with `t`: as it was if its parameters were known, and otherwise with the further
   * parameters of `t`, known if `t` was, and variadic if either was.
   */
  predicate FilledFrom(r: SigView, s: SigView, t: SigView) {
    && r.returnType == s.returnType
    && (r.paramsKnown <==> s.paramsKnown || t.paramsKnown)
    && (r.isVariadic <==> s.isVariadic || (!s.paramsKnown && t.isVariadic))
    && (s.paramsKnown || |t.params| <= |s.params| ==> r.params == s.params)
    && (!s.paramsKnown && |s.params| < |t.params| ==> r.params == s.params + t.params[|s.params|..])
  }

  lemma CompletedIs(s: SigView, t: SigView)
    ensures FilledFrom(Completed(s, t), s, t)
  {
  }

  /** Completing the second side from the completed first is no different. */
  lemma CompletedTwice(s: SigView, t: SigView)
    ensures Completed(t, Completed(s, t)) == Completed(t, s)
    ensures s == t ==> Completed(s, t) == s
  {
  }

  lemma CompletedAgree(m: Memory, maxParams: nat, s: SigView, t: SigView)
    requires Good(m, maxParams) && PairsAgree(m, s.params, t.params)
    requires forall p :: p in s.params || p in t.params ==> p < |m.typeOf|
    ensures PairsAgree(m, Completed(s, t).params, Completed(t, s).params)
  {
    var a, b := Completed(s, t).params, Completed(t, s).params;
    forall i: nat | i < |a| && i < |b|
      ensures SameParam(m, a[i], b[i])
    {
      if i < |s.params| && i < |t.params| {
        assert SameParam(m, s.params[i], t.params[i]);
      } else {
        assert a[i] == b[i] && (a[i] in s.params || a[i] in t.params);
        assert ParamOk(m, a[i]) && TypeOk(m, m.typeOf[a[i]]);
      }
    }
  }

  lemma CompletedFromBoth(s: SigView, t: SigView)
    ensures forall p :: p in Completed(s, t).params ==> p in s.params || p in t.params
  {
    forall p | p in Completed(s, t).params
      ensures p in s.params || p in t.params
    {
      var i :| 0 <= i < |Completed(s, t).params| && Completed(s, t).params[i] == p;
      assert i < |s.params| ==> p == s.params[i];
      assert i >= |s.params| ==> p == t.params[i];
    }
  }

  // ----- signatures that only some types have -----

  /** Every class that has signature `sg` is one of `ids`. */
  ghost predicate OwnedBy(m: Memory, sg: SigId, ids: set<DataId>) {
    forall t: DataId :: t < |m.links| && t < |m.infos| && m.links[t].None? && m.infos[t].fnSig == Some(sg) ==> t in ids
  }

  /** No two classes have the same signature. */
  ghost predicate Unshared(m: Memory) {
    forall s: DataId, t: DataId ::
      (s < |m.links| && t < |m.links| && s < |m.infos| && t < |m.infos| && m.links[s].None? && m.links[t].None?
       && m.infos[s].fnSig.Some? && m.infos[s].fnSig == m.infos[t].fnSig) ==> s == t
  }

  /** Signatures owned by the classes `ids` are still, and those not in `touched` are as they were. */
  ghost predicate SigsKept(a: Memory, b: Memory, ids: set<DataId>, touched: set<SigId>) {
    && |b.sigs| == |a.sigs| && (Unshared(a) ==> Unshared(b))
    && forall sg: SigId {:trigger OwnedBy(a, sg, ids)} :: sg < |a.sigs| && OwnedBy(a, sg, ids) ==>
         OwnedBy(b, sg, ids) && (sg !in touched ==> b.sigs[sg] == a.sigs[sg])
  }

  lemma SigsKeptTwice(a: Memory, b: Memory, c: Memory, ids: set<DataId>, first: set<SigId>, second: set<SigId>)
    requires SigsKept(a, b, ids, first) && SigsKept(b, c, ids, second)
    ensures SigsKept(a, c, ids, first + second)
  {
  }

  lemma EquivalentKeepsSigs(a: Memory, b: Memory, ids: set<DataId>)
    requires Equivalent(a, b)
    ensures SigsKept(a, b, ids, {})
  {
    forall t: DataId | t < |a.links|
      ensures b.links[t].None? <==> a.links[t].None?
    {
      SameRootsAt(a.links, b.links, a.depth, t);
    }
  }

  /** The parts of two classes outside `ids` may change, and then one may take over what the other has. */
  lemma SigsApart(a: Memory, b: Memory, ids: set<DataId>, x: DataId, y: DataId, touched: set<SigId>)
    requires SigsKept(a, b, ids + {x, y}, touched) && x !in ids && y !in ids
    requires x < |a.links| && x < |a.infos| && x < |b.infos| && a.links[x].None? && b.infos[x] == a.infos[x]
    requires y < |a.links| && y < |a.infos| && y < |b.infos| && a.links[y].None? && b.infos[y] == a.infos[y]
    requires forall sg :: sg in touched ==> a.infos[x].fnSig == Some(sg) || a.infos[y].fnSig == Some(sg)
    ensures SigsKept(a, b, ids, {})
  {
    forall sg: SigId | sg < |a.sigs| && OwnedBy(a, sg, ids)
      ensures OwnedBy(b, sg, ids) && b.sigs[sg] == a.sigs[sg]
    {
      assert OwnedBy(a, sg, ids + {x, y});
    }
  }

  lemma LinkedKeepsSigs(a: Memory, m: Memory, x: DataId, y: DataId, info: Info, ids: set<DataId>)
    requires SigsKept(a, m, ids, {}) && x !in ids && y !in ids && |m.infos| == |m.links| == |m.depth|
    requires x < |m.links| && y < |m.links| && m.links[x].None? && m.links[y].None?
    requires info.fnSig == FirstOf(m.infos[x].fnSig, m.infos[y].fnSig)
    ensures SigsKept(a, Linked(m, x, y, info), ids, {})
  {
    var m' := Linked(m, x, y, info);
    forall sg: SigId | sg < |a.sigs| && OwnedBy(a, sg, ids)
      ensures OwnedBy(m', sg, ids)
    {
      assert OwnedBy(m, sg, ids);
    }
  }

  /** Both signatures are completed from what they were, if each had one owner. */
  ghost predicate SigsFilled(a: Memory, b: Memory, x: Info, y: Info) {
    x.fnSig.Some? && y.fnSig.Some? && Unshared(a) ==>
      var f, g := x.fnSig.value, y.fnSig.value;
      && f < |a.sigs| && g < |a.sigs| && |b.sigs| == |a.sigs|
      && FilledFrom(b.sigs[f], a.sigs[f], a.sigs[g]) && FilledFrom(b.sigs[g], a.sigs[g], a.sigs[f])
  }

  lemma TextsKeepSigs(a: Memory, b: Memory, ids: set<DataId>, touched: set<SigId>)
    requires b.links == a.links && b.infos == a.infos && |b.sigs| == |a.sigs|
    requires forall sg: SigId :: sg < |a.sigs| && sg !in touched ==> b.sigs[sg] == a.sigs[sg]
    ensures SigsKept(a, b, ids, touched)
  {
  }

  predicate NoneShared<T(==)>(a: seq<T>, b: seq<T>) {
    forall i, j :: 0 <= i < |a| && 0 <= j < |b| && i != j ==>
      a[i] != b[j] && (i < |b| ==> b[i] != b[j]) && (j < |a| ==> a[i] != a[j])
  }

  lemma SignatureGrown(m: Memory, s: SigId, t: SigId, maxParams: nat)
    requires Good(m, maxParams) && s < |m.sigs| && t < |m.sigs|
    ensures var m' := m.(sigs := m.sigs[s := Completed(m.sigs[s], m.sigs[t])]); Good(m', maxParams) && Advances(m, m')
  {
    var m' := m.(sigs := m.sigs[s := Completed(m.sigs[s], m.sigs[t])]);
    assert SigOk(m, s, maxParams) && SigOk(m, t, maxParams);
    CompletedFromBoth(m.sigs[s], m.sigs[t]);
    forall sg: SigId | sg < |m'.sigs|
      ensures SigOk(m', sg, maxParams)
    {
      assert SigOk(m, sg, maxParams);
    }
    OnlyTexts(m, m', maxParams);
  }

  lemma NamesFilled(m: Memory, m': Memory, maxParams: nat)
    requires Good(m, maxParams) && m' == m.(names := m'.names) && |m'.names| == |m.names|
    requires forall p: ParamId :: p < |m.names| && m.names[p] != "" ==> m'.names[p] == m.names[p]
    ensures Good(m', maxParams) && Advances(m, m')
  {
    forall sg: SigId | sg < |m'.sigs|
      ensures SigOk(m', sg, maxParams)
    {
      assert SigOk(m, sg, maxParams);
    }
    OnlyTexts(m, m', maxParams);
  }

  /** Signatures and names have no say in the classes. */
  lemma OnlyTexts(m: Memory, m': Memory, maxParams: nat)
    requires Good(m, maxParams) && m' == m.(sigs := m'.sigs, names := m'.names)
    requires |m'.sigs| == |m.sigs| && |m'.names| == |m.names|
    requires forall sg: SigId :: sg < |m.sigs| ==> SigOk(m', sg, maxParams) && SigGrows(m.sigs[sg], m'.sigs[sg])
    requires forall p: ParamId :: p < |m.names| && m.names[p] != "" ==> m'.names[p] == m.names[p]
    ensures Good(m', maxParams) && Advances(m, m')
  {
    forall t: DataId | t < |m.links|
      ensures InfoOk(m', t) && FinerAt(m, m', t)
    {
      assert InfoOk(m, t);
    }
    forall ty: TypeId | ty < |m.dataOf|
      ensures TypeOk(m', ty) && TypeFollows(m, m', ty)
    {
      assert TypeOk(m, ty);
    }
    forall p: ParamId | p < |m.typeOf|
      ensures ParamOk(m', p)
    {
      assert ParamOk(m, p);
    }
  }
}
