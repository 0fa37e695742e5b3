/** Types as m2c/types.py makes them, unified: an instance of the universe that the unification is proved for. */
module TypeExample {
  import opened Wrappers
  import opened TypeStore
  import opened TypeUnify

  /** What a word of 32 bits, a signed number of 32 bits, and a pointer to the word are known to be. */
  const WORD := Info({Int, Ptr, Float}, {Int, Ptr}, Some(32), ANY_SIGN, None, None, None, None, None, {})

  const NUMBER := Info({Int}, {Int}, Some(32), {Signed}, None, None, None, None, None, {})

  const ADDRESS := Info({Ptr}, {Ptr}, Some(32), ANY_SIGN, Some(0), None, None, None, None, {})

  const START := Memory([None, None, None], [0, 0, 0], [WORD, NUMBER, ADDRESS], [0, 1, 2], [], [], [])

  lemma StartGood()
    ensures Good(START, 0) && Typed(START, 0) && Typed(START, 1) && Typed(START, 2)
    ensures ClassOf(START, 0) == 0 && ClassOf(START, 1) == 1 && ClassOf(START, 2) == 2
  {
  }

  lemma WordMeetsNumber()
    ensures NoContradiction(WORD, NUMBER) && !PartsMeet(WORD, NUMBER)
    ensures forall z :: KnowsBoth(WORD, NUMBER, z) ==> z.kind == {Int} && z.sign == {Signed}
  {
    assert Int in WORD.kind * NUMBER.kind;
    assert Signed in WORD.sign && Signed in NUMBER.sign;
    assert Int in WORD.kind && Int in NUMBER.kind && KindFits(Int, WORD.sizeBits);
  }

  /** The objects, before anything is unified. */
  method MakeTypes() returns (word: Type, number: Type, pointer: Type, ghost u: Universe)
    ensures u.Valid() && u.tys == [word, number, pointer] && u.m == START
    ensures word.id == 0 && number.id == 1 && pointer.id == 2
    ensures fresh(u) && fresh(u.sigs) && fresh(u.params) && fresh(set t | t in u.tds) && fresh(set ty | ty in u.tys)
  {
    var a := new TypeData(WORD.kind, WORD.likelyKind, Some(32), ANY_SIGN, 0);
    var b := new TypeData(NUMBER.kind, NUMBER.likelyKind, Some(32), NUMBER.sign, 1);
    var c := new TypeData(ADDRESS.kind, ADDRESS.likelyKind, Some(32), ANY_SIGN, 2);
    word := new Type(a, 0);
    number := new Type(b, 1);
    pointer := new Type(c, 2);
    c.ptrTo := word;
    u := new Universe([a, b, c], [word, number, pointer], [], [], 0, START);
    StartMirrored(u, a, b, c);
  }

  /** Unifies word and number: the data of one is linked under that of the other. */
  method UnifyWords() returns (word: Type, number: Type, pointer: Type, ghost u: Universe)
    ensures u.Valid() && u.HasType(word) && u.HasType(number) && u.HasType(pointer)
    ensures SameClass(u.m, word.id, number.id)
    ensures Known(u.m, word.id).kind == {Int} && Known(u.m, word.id).sign == {Signed}
    ensures exists t: DataId :: t < |u.m.links| && u.m.links[t].Some?
  {
    word, number, pointer, u := MakeTypes();
    StartGood();
    WordMeetsNumber();
    assert Known(START, 0) == WORD && Known(START, 1) == NUMBER;
    var ok := word.Unify(number, u);
    assert TypeFollows(START, u.m, 0) && TypeFollows(START, u.m, 1);
    assert u.m.links[0].Some? || u.m.links[1].Some?;
  }

  lemma StartMirrored(u: Universe, a: TypeData, b: TypeData, c: TypeData)
    requires u.tds == [a, b, c] && |u.tys| == 3 && u.sigs == [] && u.params == [] && u.maxParams == 0 && u.m == START
    requires a.id == 0 && a.Contents() == WORD && a.ufParent == null && a.ptrTo == null && a.fnSig == null
    requires b.id == 1 && b.Contents() == NUMBER && b.ufParent == null && b.ptrTo == null && b.fnSig == null
    requires c.id == 2 && c.Contents() == ADDRESS && c.ufParent == null && c.ptrTo == u.tys[0] && c.fnSig == null
    requires u.tys[0].id == 0 && u.tys[1].id == 1 && u.tys[2].id == 2
    requires u.tys[0].data == a && u.tys[1].data == b && u.tys[2].data == c
    ensures u.Valid()
  {
    StartGood();
    forall i: DataId | i < |u.tds|
      ensures u.DataMirrored(i)
    {
      assert i == 0 || i == 1 || i == 2;
    }
    forall i: TypeId | i < |u.tys|
      ensures u.TypeMirrored(i)
    {
      assert i == 0 || i == 1 || i == 2;
    }
  }
}
