/**
 * Type unification of m2c/types.py on its own objects: a union-find over `TypeData` with path compression,
 * recursion through pointers and function signatures, and failures that leave inner changes behind.
 * The numbers of the objects stand for their identity.
 */
module TypeUnify {
  import opened TypeStore
  import opened Wrappers

  function Numbers(seen: set<TypeData>): set<DataId> {
    set t | t in seen :: t.id
  }

  /** Nothing has happened to the roots in `seen`, nor to signatures that only these have, but for `touched`. */
  ghost predicate UntouchedBut(a: Memory, b: Memory, seen: set<TypeData>, touched: set<SigId>) {
    (forall t :: t in seen ==> UntouchedAt(a, b, t.id)) && SigsKept(a, b, Numbers(seen), touched)
  }

  ghost predicate Untouched(a: Memory, b: Memory, seen: set<TypeData>) {
    UntouchedBut(a, b, seen, {})
  }

  ghost predicate UntouchedAt(a: Memory, b: Memory, t: DataId) {
    t < |b.links| && b.links[t].None? && t < |a.infos| && t < |b.infos| && b.infos[t] == a.infos[t]
  }

  lemma UntouchedApart(a: Memory, b: Memory, seen: set<TypeData>, x: TypeData, y: TypeData, touched: set<SigId>)
    requires UntouchedBut(a, b, seen + {x, y}, touched) && x.id !in Numbers(seen) && y.id !in Numbers(seen)
    requires x.id < |a.links| && a.links[x.id].None? && y.id < |a.links| && a.links[y.id].None?
    requires x.id < |a.infos| && y.id < |a.infos|
    requires forall sg :: sg in touched ==> a.infos[x.id].fnSig == Some(sg) || a.infos[y.id].fnSig == Some(sg)
    ensures Untouched(a, b, seen) && UntouchedAt(a, b, x.id) && UntouchedAt(a, b, y.id)
  {
    assert x in seen + {x, y} && y in seen + {x, y};
    forall t | t in seen
      ensures UntouchedAt(a, b, t.id)
    {
      assert t in seen + {x, y};
    }
    assert Numbers(seen + {x, y}) == Numbers(seen) + {x.id, y.id};
    SigsApart(a, b, Numbers(seen), x.id, y.id, touched);
  }

  /** One step after another. */
  lemma Onward(a: Memory, b: Memory, c: Memory, seen: set<TypeData>, touched: set<SigId>)
    requires Advances(a, b) && Advances(b, c) && Untouched(a, b, seen) && UntouchedBut(b, c, seen, touched)
    ensures Advances(a, c) && UntouchedBut(a, c, seen, touched)
  {
    AdvancesTransitive(a, b, c);
    forall t | t in seen
      ensures UntouchedAt(a, c, t.id)
    {
      assert UntouchedAt(a, b, t.id) && UntouchedAt(b, c, t.id);
    }
    SigsKeptTwice(a, b, c, Numbers(seen), {}, touched);
    assert {} + touched == touched;
  }

  lemma StillUntouched(a: Memory, b: Memory, seen: set<TypeData>)
    requires Equivalent(a, b) && forall t :: t in seen ==> t.id < |a.links| && a.links[t.id].None?
    ensures Untouched(a, b, seen)
  {
    forall t | t in seen
      ensures UntouchedAt(a, b, t.id)
    {
      EquivalentKept(a, b, t.id);
    }
    EquivalentKeepsSigs(a, b, Numbers(seen));
  }

  /** What linking two roots means for everything seen earlier. */
  lemma AbsorbedIn(start: Memory, m: Memory, x: TypeData, y: TypeData, info: Info, earlier: set<TypeData>, maxParams: nat)
    requires Good(m, maxParams) && Advances(start, m) && Untouched(start, m, earlier)
    requires UntouchedAt(start, m, x.id) && UntouchedAt(start, m, y.id)
    requires Compatible(m.infos[x.id], m.infos[y.id]) && info == Merged(m.infos[x.id], m.infos[y.id])
    requires PartsAgree(m, m.infos[x.id], m.infos[y.id])
    requires x.id != y.id && forall t :: t in earlier ==> t.id != x.id && t.id != y.id
    ensures Advances(start, Linked(m, x.id, y.id, info))
    ensures Untouched(start, Linked(m, x.id, y.id, info), earlier)
    ensures PartsAgree(Linked(m, x.id, y.id, info), m.infos[x.id], m.infos[y.id])
  {
    var m' := Linked(m, x.id, y.id, info);
    LinkedAdvances(m, x.id, y.id, info, maxParams);
    AdvancesTransitive(start, m, m');
    PartsStay(m, m', m.infos[x.id], m.infos[y.id]);
    forall t | t in earlier
      ensures UntouchedAt(start, m', t.id)
    {
      assert UntouchedAt(start, m, t.id);
    }
    LinkedKeepsSigs(start, m, x.id, y.id, info, Numbers(earlier));
  }

  lemma TextsUntouched(start: Memory, m: Memory, m': Memory, seen: set<TypeData>, touched: set<SigId>)
    requires Untouched(start, m, seen) && m'.links == m.links && m'.infos == m.infos && |m'.sigs| == |m.sigs|
    requires forall sg: SigId :: sg < |m.sigs| && sg !in touched ==> m'.sigs[sg] == m.sigs[sg]
    ensures UntouchedBut(start, m', seen, touched)
  {
    forall t | t in seen
      ensures UntouchedAt(start, m', t.id)
    {
      assert UntouchedAt(start, m, t.id);
    }
    TextsKeepSigs(m, m', Numbers(seen), touched);
    SigsKeptTwice(start, m, m', Numbers(seen), {}, touched);
    assert {} + touched == touched;
  }

  ghost predicate BothFilled(x: SigView, y: SigView, s: SigView, t: SigView) {
    FilledFrom(x, s, t) && FilledFrom(y, t, s)
  }

  /** Signatures that only types in `seen` have do not change while their types are unified. */
  lemma FilledExactly(start: Memory, middle: Memory, seen: set<TypeData>, s: SigId, t: SigId, x: SigView, y: SigView)
    requires Untouched(start, middle, seen) && s < |start.sigs| && t < |start.sigs|
    requires BothFilled(x, y, middle.sigs[s], middle.sigs[t])
    ensures OwnedBy(start, s, Numbers(seen)) && OwnedBy(start, t, Numbers(seen)) ==> BothFilled(x, y, start.sigs[s], start.sigs[t])
  {
  }

  /** The same for the signatures that two types in `seen` have. */
  lemma FilledAfterTargets(start: Memory, middle: Memory, end: Memory, seen: set<TypeData>, x: TypeData, y: TypeData)
    requires Untouched(start, middle, seen) && x in seen && y in seen && |end.sigs| == |start.sigs|
    requires x.id < |start.infos| && x.id < |start.links| && start.links[x.id].None? && start.infos[x.id].fnSig.Some?
    requires y.id < |start.infos| && y.id < |start.links| && start.links[y.id].None? && start.infos[y.id].fnSig.Some?
    requires start.infos[x.id].fnSig.value < |start.sigs| && start.infos[y.id].fnSig.value < |start.sigs|
    requires var f, g := start.infos[x.id].fnSig.value, start.infos[y.id].fnSig.value;
      OwnedBy(middle, f, Numbers(seen)) && OwnedBy(middle, g, Numbers(seen)) ==>
        BothFilled(end.sigs[f], end.sigs[g], middle.sigs[f], middle.sigs[g])
    ensures SigsFilled(start, end, start.infos[x.id], start.infos[y.id])
  {
    if Unshared(start) {
      var f, g := start.infos[x.id].fnSig.value, start.infos[y.id].fnSig.value;
      assert x.id in Numbers(seen) && y.id in Numbers(seen);
      assert OwnedBy(start, f, Numbers(seen)) && OwnedBy(start, g, Numbers(seen));
      FilledExactly(start, middle, seen, f, g, end.sigs[f], end.sigs[g]);
    }
  }

  /** Once the class of one type is linked under the class of another, both are of one class. */
  lemma NowOne(a: Memory, b: Memory, s: TypeId, t: TypeId)
    requires Advances(a, b) && s < |a.dataOf| && t < |a.dataOf| && Typed(a, s) && Typed(a, t)
    requires b.links[ClassOf(a, s)].None? && b.links[ClassOf(a, t)] == Some(ClassOf(a, s))
    ensures SameClass(b, s, t)
  {
    assert TypeFollows(a, b, s) && TypeFollows(a, b, t);
    assert LinkOk(b.links, b.depth, ClassOf(a, t));
  }

  lemma Shrinks<T>(all: set<T>, seen: set<T>, x: T, y: T)
    requires x in all && x !in seen
    ensures |all - (seen + {x, y})| < |all - seen|
  {
    assert all - (seen + {x, y}) < all - seen;
    SmallerSet(all - (seen + {x, y}), all - seen);
  }

  lemma SmallerSet<T>(a: set<T>, b: set<T>)
    requires a < b
    ensures |a| < |b|
  {
    assert b == a + (b - a);
  }

  function SigsOf(info: Info): set<SigId> {
    if info.fnSig.Some? then {info.fnSig.value} else {}
  }

  class TypeData {
    const id: DataId
    var kind: set<Kind>
    var likelyKind: set<Kind>
    var sizeBits: Option<nat>
    var ufParent: TypeData?
    var sign: set<Sign>
    var ptrTo: Type?
    var fnSig: FunctionSignature?
    var arrayDim: Option<nat>
    var struct: Option<StructId>
    var enum: Option<nat>
    var newFieldWithin: set<StructId>

    constructor (kind: set<Kind>, likelyKind: set<Kind>, sizeBits: Option<nat>, sign: set<Sign>, id: DataId)
      requires kind != {} && sign != {} && (sign != ANY_SIGN ==> kind <= {Int, Ptr})
      ensures Sound(Contents()) && ufParent == null && ptrTo == null && fnSig == null && this.id == id
      ensures Contents() == Info(kind, likelyKind * kind, sizeBits, sign, None, None, None, None, None, {})
    {
      this.kind, this.likelyKind, this.sizeBits, this.sign := kind, likelyKind * kind, sizeBits, sign;
      ufParent, ptrTo, fnSig := null, null, null;
      arrayDim, struct, enum, newFieldWithin := None, None, None, {};
      this.id := id;
    }

    /** What the fields say, with types and signatures given by number. */
    function Contents(): Info
      reads this
    {
      Info(kind, likelyKind, sizeBits, sign, if ptrTo == null then None else Some(ptrTo.id),
           if fnSig == null then None else Some(fnSig.id), arrayDim, struct, enum, newFieldWithin)
    }

    /** Follows the links to the root, then points everything on the way straight at it. */
    method GetRepresentative(ghost u: Universe) returns (root: TypeData)
      requires u.Valid() && u.HasData(this)
      modifies u`m, u.tds`ufParent
      ensures u.Valid() && Equivalent(old(u.m), u.m) && u.m.dataOf == old(u.m.dataOf)
      ensures u.HasData(root) && root.id == u.Of(this) && root.ufParent == null
      ensures ufParent == null || ufParent == root
    {
      var visited: set<TypeData> := {};
      root := this;
      assert u.DataMirrored(root.id);
      while root.ufParent != null
        invariant u.HasData(root) && u.DataMirrored(root.id) && u.Of(root) == u.Of(this)
        invariant forall v :: v in visited ==>
          u.HasData(v) && v.ufParent != null && u.m.depth[root.id] < u.m.depth[v.id] && u.Of(v) == u.Of(this)
        invariant this == root || this in visited
        decreases u.m.depth[root.id]
      {
        // No cycle: the node has not been visited.
        assert root !in visited;
        assert LinkOk(u.m.links, u.m.depth, root.id);
        visited := visited + {root};
        root := root.ufParent;
        assert u.DataMirrored(root.id);
      }
      ghost var start := u.m;
      PointAt(visited, root, u);
      assert SameRootAt(start.links, u.m.links, start.depth, id);
      assert u.DataMirrored(root.id);
    }

    static method PointAt(visited: set<TypeData>, root: TypeData, ghost u: Universe)
      requires u.Valid() && u.HasData(root) && root.ufParent == null
      requires forall v :: v in visited ==> u.HasData(v) && v.ufParent != null && u.Of(v) == root.id
      modifies u`m, u.tds`ufParent
      ensures u.Valid() && Equivalent(old(u.m), u.m) && u.m.dataOf == old(u.m.dataOf)
      ensures forall v :: v in visited ==> v.ufParent == root
      ensures root.ufParent == null
    {
      ghost var start := u.m;
      EquivalentReflexive(start, u.maxParams);
      var todo := visited;
      while todo != {}
        invariant todo <= visited && u.Valid() && Equivalent(start, u.m) && u.m.dataOf == start.dataOf
        invariant forall v :: v in todo ==> v.ufParent != null
        invariant forall v :: v in visited && v !in todo ==> v.ufParent == root
        invariant root.ufParent == null
        decreases todo
      {
        var td: TypeData :| td in todo;
        todo := todo - {td};
        ghost var before := u.m;
        assert SameRootAt(start.links, before.links, before.depth, td.id);
        td.PointOne(root, u);
        EquivalentTransitive(start, before, u.m);
      }
    }

    /** Points a node that is not a root at its root. */
    method PointOne(root: TypeData, ghost u: Universe)
      requires u.Valid() && u.HasData(this) && u.HasData(root) && ufParent != null && u.Of(this) == root.id
      modifies u`m, `ufParent
      ensures u.Valid() && Equivalent(old(u.m), u.m) && u.m.dataOf == old(u.m.dataOf)
      ensures ufParent == root
    {
      assert u.DataMirrored(id);
      ghost var before := u.m;
      ufParent := root;
      u.m := u.m.(links := u.m.links[id := Some(root.id)]);
      Compressed(before, id, u.maxParams);
      forall t: DataId | t < |u.tds|
        ensures u.DataMirrored(t)
      {
        assert old(u.DataMirrored(t));
      }
      u.TypesStayMirrored();
      u.SigsStayMirrored();
      u.NamesStayMirrored();
    }

    /** Takes over everything the merged type knows; what it points to is its own or else `y`'s. */
    method Learn(info: Info, y: TypeData)
      requires info.ptrTo == FirstOf(Contents().ptrTo, y.Contents().ptrTo)
      requires info.fnSig == FirstOf(Contents().fnSig, y.Contents().fnSig)
      modifies this
      ensures Contents() == info && ufParent == old(ufParent)
      ensures ptrTo == old(if ptrTo != null then ptrTo else y.ptrTo)
      ensures fnSig == old(if fnSig != null then fnSig else y.fnSig)
    {
      kind, likelyKind, sizeBits, sign := info.kind, info.likelyKind, info.sizeBits, info.sign;
      if ptrTo == null {
        ptrTo := y.ptrTo;
      }
      if fnSig == null {
        fnSig := y.fnSig;
      }
      arrayDim, struct, enum, newFieldWithin := info.arrayDim, info.struct, info.enum, info.newFieldWithin;
    }

    /** Takes over everything known and puts `y`, a root like itself, under itself. */
    method Absorb(y: TypeData, info: Info, ghost u: Universe)
      requires u.Valid() && u.HasData(this) && u.HasData(y) && this != y
      requires u.m.links[id].None? && u.m.links[y.id].None? && Compatible(u.m.infos[id], u.m.infos[y.id])
      requires info == Merged(u.m.infos[id], u.m.infos[y.id])
      modifies this, y`ufParent, u`m
      ensures u.Valid() && u.m == Linked(old(u.m), id, y.id, info)
    {
      ghost var before := u.m;
      assert u.DataMirrored(id) && u.DataMirrored(y.id);
      Learn(info, y);
      y.ufParent := this;
      u.m := Linked(before, id, y.id, info);
      LinkedGood(before, id, y.id, info, u.maxParams);
      u.LinkMirrored(y);
      u.TypesStayMirrored();
      u.SigsStayMirrored();
      u.NamesStayMirrored();
    }

    /** Everything `Type.unify` does once it holds two different roots it has not met before. */
    method UnifyData(y: TypeData, earlier: set<TypeData>, ghost u: Universe) returns (ok: bool)
      requires u.Valid() && u.HasData(this) && u.HasData(y) && u.m.links[id].None? && u.m.links[y.id].None?
      requires this != y && this !in earlier && y !in earlier && u.Met(earlier)
      modifies u`m, u.tds, u.tys`data, u.sigs, u.params
      ensures u.Valid() && Advances(old(u.m), u.m) && Untouched(old(u.m), u.m, earlier)
      ensures ok ==> u.m.links[id].None? && u.m.links[y.id] == Some(id)
      ensures ok ==> PartsAgree(u.m, old(u.m.infos[id]), old(u.m.infos[y.id]))
      ensures ok ==> SigsFilled(old(u.m), u.m, old(u.m.infos[id]), old(u.m.infos[y.id]))
      ensures !ok ==> UntouchedAt(old(u.m), u.m, id) && UntouchedAt(old(u.m), u.m, y.id)
      ensures UnifyOutcome(ok, old(u.m.infos[id]), old(u.m.infos[y.id]), u.m.infos[id])
      decreases |u.All() - earlier|, 1
    {
      ghost var start := u.m;
      AdvancesReflexive(start, u.maxParams);
      assert u.DataMirrored(id) && u.DataMirrored(y.id);
      ok := MayAgree(Contents(), y.Contents());
      if ok {
        ok := UnifyPartsApart(y, earlier, u);
      }
      if ok {
        ok := Settle(y, earlier, start, u);
      }
    }

    /** Unifies the parts of two types that have not been met before, and changes nothing else of these two. */
    method UnifyPartsApart(y: TypeData, earlier: set<TypeData>, ghost u: Universe) returns (ok: bool)
      requires u.Valid() && u.HasData(this) && u.HasData(y) && u.m.links[id].None? && u.m.links[y.id].None?
      requires this !in earlier && y !in earlier && u.Met(earlier)
      modifies u`m, u.tds, u.tys`data, u.sigs, u.params
      ensures u.Valid() && Advances(old(u.m), u.m) && Untouched(old(u.m), u.m, earlier)
      ensures UntouchedAt(old(u.m), u.m, id) && UntouchedAt(old(u.m), u.m, y.id)
      ensures !PartsMeet(old(u.m.infos[id]), old(u.m.infos[y.id])) ==> ok
      ensures ok ==> PartsAgree(u.m, old(u.m.infos[id]), old(u.m.infos[y.id]))
      ensures ok ==> SigsFilled(old(u.m), u.m, old(u.m.infos[id]), old(u.m.infos[y.id]))
      decreases |u.All() - earlier|, 0
    {
      ghost var start := u.m;
      Shrinks(u.All(), earlier, this, y);
      u.NotMet(this, earlier);
      u.NotMet(y, earlier);
      ok := UnifyParts(y, earlier + {this, y}, u);
      UntouchedApart(start, u.m, earlier, this, y, SigsOf(start.infos[id]) + SigsOf(start.infos[y.id]));
    }

    /** Makes one type of two whose parts are already unified, if the rest of them agrees. */
    method Settle(y: TypeData, ghost earlier: set<TypeData>, ghost start: Memory, ghost u: Universe) returns (ok: bool)
      requires u.Valid() && u.HasData(this) && u.HasData(y) && this != y && u.Met(earlier) && this !in earlier && y !in earlier
      requires Advances(start, u.m) && Untouched(start, u.m, earlier)
      requires UntouchedAt(start, u.m, id) && UntouchedAt(start, u.m, y.id)
      requires MayAgree(start.infos[id], start.infos[y.id]) && PartsAgree(u.m, start.infos[id], start.infos[y.id])
      modifies this, y`ufParent, u`m
      ensures u.Valid() && Advances(start, u.m) && Untouched(start, u.m, earlier)
      ensures ok ==> u.m.links[id].None? && u.m.links[y.id] == Some(id)
      ensures ok ==> PartsAgree(u.m, start.infos[id], start.infos[y.id])
      ensures !ok ==> UntouchedAt(start, u.m, id) && UntouchedAt(start, u.m, y.id)
      ensures u.m.sigs == old(u.m).sigs
      ensures ok <==> Compatible(start.infos[id], start.infos[y.id])
      ensures u.m.infos[id] == if ok then Merged(start.infos[id], start.infos[y.id]) else start.infos[id]
    {
      ghost var middle := u.m;
      assert u.DataMirrored(id) && u.DataMirrored(y.id) && InfoOk(middle, id) && InfoOk(middle, y.id);
      var info := Combine(Contents(), y.Contents());
      ok := info.Some?;
      if ok {
        Absorb(y, info.value, u);
        AbsorbedIn(start, middle, this, y, info.value, earlier, u.maxParams);
      }
    }

    /** Unifies what two pointers point to, then two function signatures. */
    method UnifyParts(y: TypeData, seen: set<TypeData>, ghost u: Universe) returns (ok: bool)
      requires u.Valid() && this in seen && y in seen && u.Met(seen)
      modifies u`m, u.tds, u.tys`data, u.sigs, u.params
      ensures u.Valid() && Advances(old(u.m), u.m)
      ensures UntouchedBut(old(u.m), u.m, seen, SigsOf(old(u.m.infos[id])) + SigsOf(old(u.m.infos[y.id])))
      ensures !PartsMeet(old(u.m.infos[id]), old(u.m.infos[y.id])) ==> ok
      ensures ok ==> PartsAgree(u.m, old(u.m.infos[id]), old(u.m.infos[y.id]))
      ensures ok ==> SigsFilled(old(u.m), u.m, old(u.m.infos[id]), old(u.m.infos[y.id]))
      decreases |u.All() - seen|, 9
    {
      ghost var start := u.m;
      assert u.DataMirrored(id) && u.DataMirrored(y.id);
      var f, g := fnSig, y.fnSig;
      ok := UnifyTargets(ptrTo, y.ptrTo, seen, u);
      if ok && f != null && g != null {
        ghost var middle := u.m;
        ok := UnifySignatures(y, f, g, seen, start, u);
        assert SigsOf(start.infos[id]) + SigsOf(start.infos[y.id]) == {f.id, g.id};
        if start.infos[id].ptrTo.Some? && start.infos[y.id].ptrTo.Some? {
          UnifiedForGood(middle, u.m, start.infos[id].ptrTo.value, start.infos[y.id].ptrTo.value);
        }
      }
    }

    /** The signatures that two types had at the start, now that what they point to is unified. */
    method UnifySignatures(y: TypeData, f: FunctionSignature, g: FunctionSignature, seen: set<TypeData>, ghost start: Memory,
                           ghost u: Universe)
      returns (ok: bool)
      requires u.Valid() && this in seen && y in seen && u.Met(seen) && u.HasSig(f) && u.HasSig(g)
      requires Advances(start, u.m) && Untouched(start, u.m, seen) && id < |start.links| && y.id < |start.links|
      requires start.links[id].None? && start.infos[id].fnSig == Some(f.id)
      requires start.links[y.id].None? && start.infos[y.id].fnSig == Some(g.id)
      modifies u`m, u.tds, u.tys`data, u.sigs, u.params
      ensures u.Valid() && Advances(old(u.m), u.m) && Advances(start, u.m) && UntouchedBut(start, u.m, seen, {f.id, g.id})
      ensures ok ==> SignaturesAgree(u.m, f.id, g.id) && SigsFilled(start, u.m, start.infos[id], start.infos[y.id])
      decreases |u.All() - seen|, 8
    {
      ghost var middle := u.m;
      ok := f.Unify(g, seen, u);
      Onward(start, middle, u.m, seen, {f.id, g.id});
      if ok {
        FilledAfterTargets(start, middle, u.m, seen, this, y);
      }
    }

    static method UnifyTargets(a: Type?, b: Type?, seen: set<TypeData>, ghost u: Universe) returns (ok: bool)
      requires u.Valid() && u.Met(seen) && (a != null ==> u.HasType(a)) && (b != null ==> u.HasType(b))
      modifies u`m, u.tds, u.tys`data, u.sigs, u.params
      ensures u.Valid() && Advances(old(u.m), u.m) && Untouched(old(u.m), u.m, seen)
      ensures a == null || b == null ==> ok
      ensures ok && a != null && b != null ==> SameClass(u.m, a.id, b.id)
      decreases |u.All() - seen|, 8
    {
      AdvancesReflexive(u.m, u.maxParams);
      ok := true;
      if a != null && b != null {
        ok := a.UnifySeen(b, seen, u);
      }
    }
  }

  class Type {
    const id: TypeId
    var data: TypeData

    constructor (data: TypeData, id: TypeId)
      ensures this.data == data && this.id == id
    {
      this.data, this.id := data, id;
    }

    /** The representative of this type's data, remembered for the next time. */
    method Data(ghost u: Universe) returns (d: TypeData)
      requires u.Valid() && u.HasType(this)
      modifies `data, u`m, u.tds`ufParent
      ensures u.Valid() && Equivalent(old(u.m), u.m)
      ensures d == data && u.HasData(d) && d.id == ClassOf(u.m, id) && d.ufParent == null
    {
      assert u.TypeMirrored(id) && TypeOk(u.m, id);
      assert u.DataMirrored(data.id);
      ghost var start := u.m;
      EquivalentReflexive(start, u.maxParams);
      if data.ufParent != null {
        var root := data.GetRepresentative(u);
        ghost var middle := u.m;
        Remember(root, u);
        EquivalentTransitive(start, middle, u.m);
        assert u.DataMirrored(root.id);
      }
      d := data;
    }

    method Remember(root: TypeData, ghost u: Universe)
      requires u.Valid() && u.HasType(this) && u.HasData(root) && root.id == ClassOf(u.m, id)
      modifies `data, u`m
      ensures u.Valid() && Equivalent(old(u.m), u.m) && data == root && ClassOf(u.m, id) == root.id
    {
      ghost var before := u.m;
      data := root;
      u.m := u.m.(dataOf := u.m.dataOf[id := root.id]);
      Remembered(before, id, u.maxParams);
      forall ty: TypeId | ty < |u.tys|
        ensures u.TypeMirrored(ty)
      {
        assert old(u.TypeMirrored(ty));
      }
      u.DataStaysMirrored();
      u.SigsStayMirrored();
      u.NamesStayMirrored();
    }

    /** The representatives of two types. */
    method BothData(other: Type, ghost u: Universe) returns (x: TypeData, y: TypeData)
      requires u.Valid() && u.HasType(this) && u.HasType(other)
      modifies u.tys`data, u`m, u.tds`ufParent
      ensures u.Valid() && Equivalent(old(u.m), u.m)
      ensures u.HasData(x) && u.HasData(y) && x.id == ClassOf(u.m, id) && y.id == ClassOf(u.m, other.id)
    {
      ghost var start := u.m;
      x := Data(u);
      ghost var middle := u.m;
      y := other.Data(u);
      EquivalentTransitive(start, middle, u.m);
      assert SameClassAt(middle, u.m, id);
    }

    /** Tries to make both types equal, for good. */
    method Unify(other: Type, ghost u: Universe) returns (ok: bool)
      requires u.Valid() && u.HasType(this) && u.HasType(other)
      modifies u`m, u.tds, u.tys`data, u.sigs, u.params
      ensures u.Valid() && Advances(old(u.m), u.m)
      ensures ok ==> ClassOf(u.m, id) == ClassOf(u.m, other.id)
      ensures !ok ==> ClassOf(u.m, id) == ClassOf(old(u.m), id) && ClassOf(u.m, other.id) == ClassOf(old(u.m), other.id)
      ensures !ok ==> Known(u.m, id) == Known(old(u.m), id) && Known(u.m, other.id) == Known(old(u.m), other.id)
      ensures ClassOf(old(u.m), id) == ClassOf(old(u.m), other.id) ==> ok && Equivalent(old(u.m), u.m)
      ensures ClassOf(old(u.m), id) != ClassOf(old(u.m), other.id) ==>
        OutcomeMeans(ok, Known(old(u.m), id), Known(old(u.m), other.id), Known(u.m, id)) &&
        (ok ==> PartsAgree(u.m, Known(old(u.m), id), Known(old(u.m), other.id)) &&
                SigsFilled(old(u.m), u.m, Known(old(u.m), id), Known(old(u.m), other.id)))
      ensures Unshared(old(u.m)) ==> Unshared(u.m)
    {
      ghost var start := u.m;
      var x, y := BothData(other, u);
      EquivalentAdvances(start, u.m, u.maxParams);
      EquivalentKeepsSigs(start, u.m, {});
      assert SameClassAt(start, u.m, id) && SameClassAt(start, u.m, other.id);
      if x == y {
        return true;
      }
      ghost var middle := u.m;
      assert InfoOk(middle, x.id) && InfoOk(middle, y.id);
      ok := x.UnifyData(y, {}, u);
      AdvancesTransitive(start, middle, u.m);
      assert TypeFollows(middle, u.m, id) && TypeFollows(middle, u.m, other.id);
      OutcomeIs(ok, middle.infos[x.id], middle.infos[y.id], u.m.infos[x.id]);
    }

    /** The same on the way down, where types already met in `seen` make it fail. */
    method UnifySeen(other: Type, seen: set<TypeData>, ghost u: Universe) returns (ok: bool)
      requires u.Valid() && u.HasType(this) && u.HasType(other) && u.Met(seen)
      modifies u`m, u.tds, u.tys`data, u.sigs, u.params
      ensures u.Valid() && Advances(old(u.m), u.m) && Untouched(old(u.m), u.m, seen)
      ensures ok ==> ClassOf(u.m, id) == ClassOf(u.m, other.id)
      decreases |u.All() - seen|, 2
    {
      ghost var start := u.m;
      var x, y := BothData(other, u);
      EquivalentAdvances(start, u.m, u.maxParams);
      StillUntouched(start, u.m, seen);
      ok := x == y;
      if x != y && x !in seen && y !in seen {
        ghost var middle := u.m;
        ok := x.UnifyData(y, seen, u);
        Onward(start, middle, u.m, seen, {});
        if ok {
          NowOne(middle, u.m, id, other.id);
        }
      }
    }
  }

  class FunctionParam {
    const id: ParamId
    const typ: Type
    var name: string

    constructor (typ: Type, name: string, id: ParamId)
      ensures this.typ == typ && this.name == name && this.id == id
    {
      this.typ, this.name, this.id := typ, name, id;
    }
  }

  /** The numbers of a list of parameters. */
  ghost function Ids(params: seq<FunctionParam>): seq<ParamId> {
    seq(|params|, i requires 0 <= i < |params| => params[i].id)
  }

  lemma IdsLengthened(a: seq<FunctionParam>, b: seq<FunctionParam>)
    ensures |a| < |b| ==> Ids(a + b[|a|..]) == Ids(a) + Ids(b)[|a|..]
    ensures |a| < |b| ==> forall p :: p in a + b[|a|..] ==> p in a || p in b
  {
  }

  class FunctionSignature {
    const id: SigId
    const returnType: Type
    var params: seq<FunctionParam>
    var paramsKnown: bool
    var isVariadic: bool

    constructor (returnType: Type, id: SigId)
      ensures this.returnType == returnType && params == [] && this.id == id
    {
      this.returnType, this.id, params, paramsKnown, isVariadic := returnType, id, [], false, false;
    }

    ghost function Contents(): SigView
      reads this
    {
      SigView(returnType.id, Ids(params), paramsKnown, isVariadic)
    }

    /**
     * Unifies two signatures: all types are tried, then the parameter lists complete each other. What an unknown side
     * becomes is exact if only types in `seen` have the two signatures; otherwise they may have changed on the way.
     */
    method Unify(other: FunctionSignature, seen: set<TypeData>, ghost u: Universe) returns (ok: bool)
      requires u.Valid() && u.HasSig(this) && u.HasSig(other) && u.Met(seen)
      modifies u`m, u.tds, u.tys`data, u.sigs, u.params
      ensures u.Valid() && Advances(old(u.m), u.m) && UntouchedBut(old(u.m), u.m, seen, {id, other.id})
      ensures ok ==> SignaturesAgree(u.m, id, other.id)
      ensures old(paramsKnown && other.paramsKnown) && ok ==> |params| == |other.params| && isVariadic == other.isVariadic
      ensures old(paramsKnown) ==> paramsKnown && isVariadic == old(isVariadic) && Ids(params) == old(Ids(params))
      ensures ok && old(paramsKnown || other.paramsKnown) ==> paramsKnown && other.paramsKnown
      ensures id < |u.m.sigs| == old(|u.m.sigs|) && other.id < |u.m.sigs|
      ensures ok && OwnedBy(old(u.m), id, Numbers(seen)) && OwnedBy(old(u.m), other.id, Numbers(seen)) ==>
        BothFilled(u.m.sigs[id], u.m.sigs[other.id], old(u.m).sigs[id], old(u.m).sigs[other.id])
      ensures Contents() == u.m.sigs[id] && other.Contents() == u.m.sigs[other.id]
      decreases |u.All() - seen|, 7
    {
      assert u.SigMirrored(id) && u.SigMirrored(other.id);
      if paramsKnown && other.paramsKnown {
        if isVariadic != other.isVariadic || |params| != |other.params| {
          AdvancesReflexive(u.m, u.maxParams);
          return false;
        }
      }
      ghost var start := u.m;
      ok := UnifyTypes(other, seen, u);
      if ok {
        Finish(other, seen, start, u);
      }
      assert SigAdvances(start, u.m, id) && SigAdvances(start, u.m, other.id);
      assert u.SigMirrored(id) && u.SigMirrored(other.id);
    }

    /** What is left to do once all types are unified. */
    method Finish(other: FunctionSignature, ghost seen: set<TypeData>, ghost start: Memory, ghost u: Universe)
      requires u.Valid() && u.HasSig(this) && u.HasSig(other) && SignaturesAgree(u.m, id, other.id)
      requires Advances(start, u.m) && Untouched(start, u.m, seen) && id < |start.sigs| && other.id < |start.sigs|
      modifies this, other, u.params, u`m
      ensures u.Valid() && Advances(start, u.m) && UntouchedBut(start, u.m, seen, {id, other.id})
      ensures SignaturesAgree(u.m, id, other.id)
      ensures BothFilled(Contents(), other.Contents(), old(Contents()), old(other.Contents()))
      ensures OwnedBy(start, id, Numbers(seen)) && OwnedBy(start, other.id, Numbers(seen)) ==>
        BothFilled(Contents(), other.Contents(), start.sigs[id], start.sigs[other.id])
    {
      ghost var middle := u.m;
      assert u.SigMirrored(id) && u.SigMirrored(other.id);
      Reconcile(other, u);
      FilledExactly(start, middle, seen, id, other.id, Contents(), other.Contents());
      TextsUntouched(start, middle, u.m, seen, {id, other.id});
      AdvancesTransitive(start, middle, u.m);
    }

    /** Tries all types, whether or not an earlier one fails. */
    method UnifyTypes(other: FunctionSignature, seen: set<TypeData>, ghost u: Universe) returns (ok: bool)
      requires u.Valid() && u.HasSig(this) && u.HasSig(other) && u.Met(seen)
      modifies u`m, u.tds, u.tys`data, u.sigs, u.params
      ensures u.Valid() && Advances(old(u.m), u.m) && Untouched(old(u.m), u.m, seen)
      ensures ok ==> SignaturesAgree(u.m, id, other.id)
      decreases |u.All() - seen|, 6
    {
      assert u.SigMirrored(id) && u.SigMirrored(other.id);
      ghost var start := u.m;
      var canUnify := returnType.UnifySeen(other.returnType, seen, u);
      ghost var middle := u.m;
      var paramsUnify := UnifyParams(other, seen, u);
      Onward(start, middle, u.m, seen, {});
      ok := canUnify && paramsUnify;
      assert SigAdvances(start, u.m, id) && SigAdvances(start, u.m, other.id);
      if ok {
        UnifiedForGood(middle, u.m, returnType.id, other.returnType.id);
      }
    }

    /** Completes parameter lists and names once all types are unified. */
    method Reconcile(other: FunctionSignature, ghost u: Universe)
      requires u.Valid() && u.HasSig(this) && u.HasSig(other) && SignaturesAgree(u.m, id, other.id)
      modifies this, other, u.params, u`m
      ensures u.Valid() && Advances(old(u.m), u.m)
      ensures u.m == old(u.m).(sigs := u.m.sigs, names := u.m.names)
      ensures |u.m.sigs| == old(|u.m.sigs|)
      ensures forall sg: SigId :: sg < |u.m.sigs| && sg !in {id, other.id} ==> u.m.sigs[sg] == old(u.m.sigs[sg])
      ensures SignaturesAgree(u.m, id, other.id)
      ensures BothFilled(Contents(), other.Contents(), old(Contents()), old(other.Contents()))
    {
      ghost var start := u.m;
      assert u.SigMirrored(id) && u.SigMirrored(other.id);
      CompletedIs(Contents(), other.Contents());
      CompletedIs(other.Contents(), Contents());
      Complete(other, u);
      ghost var middle := u.m;
      FillNames(other, u);
      AdvancesTransitive(start, middle, u.m);
      UnifiedForGood(start, u.m, returnType.id, other.returnType.id);
      PairsStay(middle, u.m, middle.sigs[id].params, middle.sigs[other.id].params);
    }

    /** Unifies the parameter types in pairs; the lists may grow meanwhile, and the loop sees that. */
    method UnifyParams(other: FunctionSignature, seen: set<TypeData>, ghost u: Universe) returns (ok: bool)
      requires u.Valid() && u.HasSig(this) && u.HasSig(other) && u.Met(seen)
      modifies u`m, u.tds, u.tys`data, u.sigs, u.params
      ensures u.Valid() && Advances(old(u.m), u.m) && Untouched(old(u.m), u.m, seen)
      ensures ok ==> PairsAgree(u.m, u.m.sigs[id].params, u.m.sigs[other.id].params)
      decreases |u.All() - seen|, 5
    {
      ghost var start := u.m;
      AdvancesReflexive(start, u.maxParams);
      assert u.SigMirrored(id) && u.SigMirrored(other.id);
      ok := true;
      var i := 0;
      while i < |params| && i < |other.params|
        invariant u.Valid() && Advances(start, u.m) && Untouched(start, u.m, seen)
        invariant i <= |u.m.sigs[id].params| && i <= |u.m.sigs[other.id].params|
        invariant |params| == |u.m.sigs[id].params| && |other.params| == |u.m.sigs[other.id].params|
        invariant ok ==> PairsAgree(u.m, u.m.sigs[id].params[..i], u.m.sigs[other.id].params[..i])
        decreases u.maxParams - i
      {
        var same := UnifyNext(other, i, seen, start, u);
        ok := ok && same;
        i := i + 1;
      }
    }

    /** One pair of parameters, after those before it. */
    method UnifyNext(other: FunctionSignature, i: nat, seen: set<TypeData>, ghost start: Memory, ghost u: Universe)
      returns (ok: bool)
      requires u.Valid() && u.HasSig(this) && u.HasSig(other) && u.Met(seen) && i < |params| && i < |other.params|
      requires Advances(start, u.m) && Untouched(start, u.m, seen)
      requires i <= |u.m.sigs[id].params| && i <= |u.m.sigs[other.id].params|
      modifies u`m, u.tds, u.tys`data, u.sigs, u.params
      ensures u.Valid() && Advances(start, u.m) && Untouched(start, u.m, seen) && u.Met(seen)
      ensures i < |u.m.sigs[id].params| && i < |u.m.sigs[other.id].params| && i < u.maxParams
      ensures |params| == |u.m.sigs[id].params| && |other.params| == |u.m.sigs[other.id].params|
      ensures ok && PairsAgree(old(u.m), old(u.m.sigs[id].params[..i]), old(u.m.sigs[other.id].params[..i])) ==>
        PairsAgree(u.m, u.m.sigs[id].params[..i + 1], u.m.sigs[other.id].params[..i + 1])
      decreases |u.All() - seen|, 4
    {
      ghost var before := u.m;
      ok := UnifyParam(other, i, seen, u);
      PairsGrow(start, before, u.m, id, other.id, i);
      Onward(start, before, u.m, seen, {});
    }

    method UnifyParam(other: FunctionSignature, i: nat, seen: set<TypeData>, ghost u: Universe) returns (ok: bool)
      requires u.Valid() && u.HasSig(this) && u.HasSig(other) && u.Met(seen) && i < |params| && i < |other.params|
      modifies u`m, u.tds, u.tys`data, u.sigs, u.params
      ensures u.Valid() && Advances(old(u.m), u.m) && Untouched(old(u.m), u.m, seen)
      ensures old(i < |u.m.sigs[id].params| && i < |u.m.sigs[other.id].params|) && i < u.maxParams
      ensures |params| == |u.m.sigs[id].params| && |other.params| == |u.m.sigs[other.id].params|
      ensures ok ==> SameParam(u.m, old(u.m.sigs[id].params[i]), old(u.m.sigs[other.id].params[i]))
      decreases |u.All() - seen|, 3
    {
      assert u.SigMirrored(id) && u.SigMirrored(other.id) && SigOk(u.m, id, u.maxParams);
      var p, q := params[i], other.params[i];
      assert u.HasParam(p) && u.HasParam(q);
      assert u.NameMirrored(p.id) && u.NameMirrored(q.id);
      ok := p.typ.UnifySeen(q.typ, seen, u);
      assert u.SigMirrored(id) && u.SigMirrored(other.id);
    }

    static method Lengthen(a: seq<FunctionParam>, b: seq<FunctionParam>) returns (r: seq<FunctionParam>)
      ensures r == if |a| < |b| then a + b[|a|..] else a
    {
      r := a;
      while |b| > |r|
        invariant |r| <= |a| || |r| <= |b|
        invariant r == if |a| < |r| then a + b[|a|..|r|] else a
        decreases |b| - |r|
      {
        r := r + [b[|r|]];
      }
    }

    /** Unless its parameters are known, takes over what it lacks from the other. */
    method Extend(other: FunctionSignature)
      modifies this
      ensures Contents() == Completed(old(Contents()), old(other.Contents()))
      ensures forall p :: p in params ==> p in old(params) || p in old(other.params)
    {
      if !paramsKnown {
        var longer := Lengthen(params, other.params);
        IdsLengthened(params, other.params);
        isVariadic := isVariadic || other.isVariadic;
        paramsKnown := paramsKnown || other.paramsKnown;
        params := longer;
      }
    }

    method TakeOver(other: FunctionSignature, ghost u: Universe)
      requires u.Valid() && u.HasSig(this) && u.HasSig(other)
      modifies this, u`m
      ensures u.Valid() && u.m == old(u.m).(sigs := old(u.m.sigs)[id := Completed(old(Contents()), old(other.Contents()))])
      ensures Contents() == Completed(old(Contents()), old(other.Contents()))
      ensures Advances(old(u.m), u.m)
    {
      assert u.SigMirrored(id) && u.SigMirrored(other.id);
      ghost var before := u.m;
      ghost var completed := Completed(Contents(), other.Contents());
      Extend(other);
      u.m := u.m.(sigs := u.m.sigs[id := completed]);
      SignatureGrown(before, id, other.id, u.maxParams);
      forall sg: SigId | sg < |u.sigs|
        ensures u.SigMirrored(sg)
      {
        assert old(u.SigMirrored(sg));
      }
      u.DataStaysMirrored();
      u.TypesStayMirrored();
      u.NamesStayMirrored();
    }

    /** The sides whose parameters are not known take over what they lack from each other. */
    method Complete(other: FunctionSignature, ghost u: Universe)
      requires u.Valid() && u.HasSig(this) && u.HasSig(other)
      requires PairsAgree(u.m, u.m.sigs[id].params, u.m.sigs[other.id].params)
      modifies this, other, u`m
      ensures u.Valid() && Advances(old(u.m), u.m)
      ensures u.m == old(u.m).(sigs := u.m.sigs) && |u.m.sigs| == old(|u.m.sigs|)
      ensures forall sg: SigId :: sg < |u.m.sigs| && sg !in {id, other.id} ==> u.m.sigs[sg] == old(u.m.sigs[sg])
      ensures Contents() == u.m.sigs[id] == Completed(old(Contents()), old(other.Contents()))
      ensures other.Contents() == u.m.sigs[other.id] == Completed(old(other.Contents()), old(Contents()))
      ensures PairsAgree(u.m, u.m.sigs[id].params, u.m.sigs[other.id].params)
    {
      assert u.SigMirrored(id) && u.SigMirrored(other.id);
      ghost var start := u.m;
      ghost var a, b := Contents(), other.Contents();
      TakeOver(other, u);
      ghost var middle := u.m;
      other.TakeOver(this, u);
      AdvancesTransitive(start, middle, u.m);
      CompletedTwice(a, b);
      assert SigOk(start, id, u.maxParams) && SigOk(start, other.id, u.maxParams);
      CompletedAgree(start, u.maxParams, a, b);
      PairsSameLinks(start, u.m, Completed(a, b).params, Completed(b, a).params);
    }

    /** Fills in missing parameter names from the other side. */
    method FillPairs(other: FunctionSignature, ghost all: seq<FunctionParam>)
      requires forall p :: p in params || p in other.params ==> p in all
      modifies all
      ensures forall p :: p in all && old(p.name) != "" ==> p.name == old(p.name)
      ensures NoneShared(params, other.params) ==> forall i :: 0 <= i < |params| && i < |other.params| ==>
        params[i].name == (if old(params[i].name) == "" then old(other.params[i].name) else old(params[i].name)) &&
        other.params[i].name == (if old(other.params[i].name) == "" then old(params[i].name) else old(other.params[i].name))
    {
      ghost var apart := NoneShared(params, other.params);
      var i := 0;
      while i < |params| && i < |other.params|
        invariant forall p :: p in all && old(p.name) != "" ==> p.name == old(p.name)
        invariant apart ==> forall k :: 0 <= k < i && k < |params| && k < |other.params| ==>
          params[k].name == (if old(params[k].name) == "" then old(other.params[k].name) else old(params[k].name)) &&
          other.params[k].name == (if old(other.params[k].name) == "" then old(params[k].name) else old(other.params[k].name))
        invariant apart ==> forall k :: i <= k < |params| && k < |other.params| ==>
          params[k].name == old(params[k].name) && other.params[k].name == old(other.params[k].name)
      {
        var p, q := params[i], other.params[i];
        assert p in params && q in other.params;
        if p.name == "" && q.name != "" {
          p.name := q.name;
        } else if q.name == "" && p.name != "" {
          q.name := p.name;
        }
        i := i + 1;
      }
    }

    method FillNames(other: FunctionSignature, ghost u: Universe)
      requires u.Valid() && u.HasSig(this) && u.HasSig(other)
      modifies u.params, u`m
      ensures u.Valid() && Advances(old(u.m), u.m)
      ensures u.m == old(u.m).(names := u.m.names)
      ensures NoneShared(params, other.params) ==> forall i :: 0 <= i < |params| && i < |other.params| ==>
        params[i].name == (if old(params[i].name) == "" then old(other.params[i].name) else old(params[i].name)) &&
        other.params[i].name == (if old(other.params[i].name) == "" then old(params[i].name) else old(other.params[i].name))
    {
      assert u.SigMirrored(id) && u.SigMirrored(other.id);
      ghost var before := u.m;
      forall p | p in params || p in other.params
        ensures p in u.params
      {
        assert u.HasParam(p);
      }
      FillPairs(other, u.params);
      u.m := u.m.(names := u.Names());
      forall p: ParamId | p < |u.params|
        ensures u.NameMirrored(p) && (before.names[p] != "" ==> u.m.names[p] == before.names[p])
      {
        assert old(u.NameMirrored(p)) && u.params[p] in u.params;
      }
      NamesFilled(before, u.m, u.maxParams);
      u.DataStaysMirrored();
      u.TypesStayMirrored();
      u.SigsStayMirrored();
    }
  }

  /** All objects a call may meet, by number, and what is in them. */
  class Universe {
    ghost const tds: seq<TypeData>
    ghost const tys: seq<Type>
    ghost const sigs: seq<FunctionSignature>
    ghost const params: seq<FunctionParam>
    ghost const maxParams: nat
    ghost var m: Memory

    ghost constructor (tds: seq<TypeData>, tys: seq<Type>, sigs: seq<FunctionSignature>, params: seq<FunctionParam>,
                       maxParams: nat, m: Memory)
      ensures this.tds == tds && this.tys == tys && this.sigs == sigs && this.params == params
      ensures this.maxParams == maxParams && this.m == m
    {
      this.tds, this.tys, this.sigs, this.params, this.maxParams, this.m := tds, tys, sigs, params, maxParams, m;
    }

    ghost predicate HasData(t: TypeData) {
      t.id < |tds| && tds[t.id] == t
    }

    ghost predicate HasType(ty: Type) {
      ty.id < |tys| && tys[ty.id] == ty
    }

    ghost predicate HasSig(sg: FunctionSignature) {
      sg.id < |sigs| && sigs[sg.id] == sg
    }

    ghost predicate HasParam(p: FunctionParam) {
      p.id < |params| && params[p.id] == p
    }

    ghost function All(): set<TypeData> {
      set t | t in tds
    }

    ghost predicate DataMirrored(i: DataId)
      requires i < |tds| && |m.links| == |m.infos| == |tds|
      reads this, tds[i]
    {
      var t := tds[i];
      && t.id == i && t.Contents() == m.infos[i]
      && (if t.ufParent == null then m.links[i] == None else HasData(t.ufParent) && m.links[i] == Some(t.ufParent.id))
      && (t.ptrTo != null ==> HasType(t.ptrTo)) && (t.fnSig != null ==> HasSig(t.fnSig))
    }

    ghost predicate TypeMirrored(i: TypeId)
      requires i < |tys| && |m.dataOf| == |tys|
      reads this, tys[i]
    {
      tys[i].id == i && HasData(tys[i].data) && m.dataOf[i] == tys[i].data.id
    }

    ghost predicate SigMirrored(i: SigId)
      requires i < |sigs| && |m.sigs| == |sigs|
      reads this, sigs[i]
    {
      var sg := sigs[i];
      sg.id == i && sg.Contents() == m.sigs[i] && HasType(sg.returnType) && forall p :: p in sg.params ==> HasParam(p)
    }

    ghost predicate NameMirrored(i: ParamId)
      requires i < |params| && |m.names| == |m.typeOf| == |params|
      reads this, params[i]
    {
      var p := params[i];
      p.id == i && p.name == m.names[i] && HasType(p.typ) && m.typeOf[i] == p.typ.id
    }

    /** `m` is what the objects hold. */
    ghost predicate Mirrors()
      reads this, tds, tys, sigs, params
    {
      && |m.links| == |m.infos| == |tds| && |m.dataOf| == |tys| && |m.sigs| == |sigs|
      && |m.names| == |m.typeOf| == |params|
      && (forall t: DataId {:trigger DataMirrored(t)} :: t < |tds| ==> DataMirrored(t))
      && (forall ty: TypeId {:trigger TypeMirrored(ty)} :: ty < |tys| ==> TypeMirrored(ty))
      && (forall sg: SigId {:trigger SigMirrored(sg)} :: sg < |sigs| ==> SigMirrored(sg))
      && (forall p: ParamId {:trigger NameMirrored(p)} :: p < |params| ==> NameMirrored(p))
    }

    ghost predicate Valid()
      reads this, tds, tys, sigs, params
    {
      Mirrors() && Good(m, maxParams)
    }

    /** The number of the representative. */
    ghost function Of(t: TypeData): DataId
      requires GoodDepth(m.links, m.depth) && |m.links| == |tds| && HasData(t)
      reads this
    {
      Rep(m, t.id)
    }

    /** The types met on the way down are roots. */
    ghost predicate Met(seen: set<TypeData>)
      requires |m.links| == |tds|
      reads this
    {
      forall t :: t in seen ==> HasData(t) && m.links[t.id].None?
    }

    lemma NotMet(t: TypeData, seen: set<TypeData>)
      requires |m.links| == |tds| && HasData(t) && Met(seen) && t !in seen
      ensures t.id !in Numbers(seen)
    {
    }

    ghost function Names(): seq<string>
      reads params
    {
      seq(|params|, i requires 0 <= i < |params| reads params => params[i].name)
    }

    /** After the root `y` was put under another, and that one took over what `y` points to. */
    twostate lemma LinkMirrored(y: TypeData)
      requires old(Mirrors()) && HasData(y) && y.ufParent != null && HasData(y.ufParent) && y.ufParent != y
      requires |m.links| == |m.infos| == |tds| && old(y.ufParent) == null
      requires y.ufParent.ufParent == null && m.links[y.ufParent.id] == None && m.infos[y.ufParent.id] == y.ufParent.Contents()
      requires y.ufParent.ptrTo != null ==> HasType(y.ufParent.ptrTo)
      requires y.ufParent.fnSig != null ==> HasSig(y.ufParent.fnSig)
      requires y.Contents() == old(y.Contents()) && y.ptrTo == old(y.ptrTo) && y.fnSig == old(y.fnSig)
      requires m.links[y.id] == Some(y.ufParent.id) && m.infos[y.id] == old(m.infos[y.id])
      requires forall t :: t in tds && t != y && t != y.ufParent ==> unchanged(t)
      requires forall i: DataId :: i < |tds| && i != y.id && i != y.ufParent.id ==>
        m.links[i] == old(m.links[i]) && m.infos[i] == old(m.infos[i])
      ensures forall t: DataId {:trigger DataMirrored(t)} :: t < |tds| ==> DataMirrored(t)
    {
      forall t: DataId | t < |tds|
        ensures DataMirrored(t)
      {
        assert old(DataMirrored(t)) && tds[t] in tds;
      }
    }

    twostate lemma DataStaysMirrored()
      requires old(Mirrors()) && unchanged(tds) && m.links == old(m.links) && m.infos == old(m.infos)
      ensures forall t: DataId {:trigger DataMirrored(t)} :: t < |tds| ==> DataMirrored(t)
    {
      forall t: DataId | t < |tds|
        ensures DataMirrored(t)
      {
        assert old(DataMirrored(t));
      }
    }

    twostate lemma TypesStayMirrored()
      requires old(Mirrors()) && unchanged(tys) && m.dataOf == old(m.dataOf)
      ensures forall ty: TypeId {:trigger TypeMirrored(ty)} :: ty < |tys| ==> TypeMirrored(ty)
    {
      forall ty: TypeId | ty < |tys|
        ensures TypeMirrored(ty)
      {
        assert old(TypeMirrored(ty));
      }
    }

    twostate lemma SigsStayMirrored()
      requires old(Mirrors()) && unchanged(sigs) && m.sigs == old(m.sigs)
      ensures forall sg: SigId {:trigger SigMirrored(sg)} :: sg < |sigs| ==> SigMirrored(sg)
    {
      forall sg: SigId | sg < |sigs|
        ensures SigMirrored(sg)
      {
        assert old(SigMirrored(sg));
      }
    }

    twostate lemma NamesStayMirrored()
      requires old(Mirrors()) && unchanged(params) && m.names == old(m.names) && m.typeOf == old(m.typeOf)
      ensures forall p: ParamId {:trigger NameMirrored(p)} :: p < |params| ==> NameMirrored(p)
    {
      forall p: ParamId | p < |params|
        ensures NameMirrored(p)
      {
        assert old(NameMirrored(p));
      }
    }
  }
}
