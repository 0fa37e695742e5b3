/**
 * Types and names mangled by CodeWarrior (m2c/demangle_codewarrior.py), after section 3.4.1.2 of the
 * Macintosh C++ ABI specification: the parsers as functions on text, and the encoding they undo.
 */
module Demangle {
  import opened Wrappers
  import opened Decimals

  datatype Error = Malformed | SymbolReference

  /** Terms of one letter; those on the first line are followed by more of the type. */
  datatype Kind =
    | Const | Pointer | Reference | Signed | Unsigned
    | Ellipsis | Void | Bool | Char | Short | Int | Long | LongLong | WideChar | Float | Double | LongDouble

  datatype CxxName = Plain(name: string) | Template(name: string, params: seq<CxxType>)

  datatype CxxTerm =
    | Simple(kind: Kind)
    | Array(dim: nat)
    | Qualified(names: seq<CxxName>)
    | Function(params: seq<CxxType>, result: Option<CxxType>)

  datatype CxxType = CxxType(terms: seq<CxxTerm>)

  function Letter(k: Kind): char {
    match k
    case Const => 'C'
    case Pointer => 'P'
    case Reference => 'R'
    case Signed => 'S'
    case Unsigned => 'U'
    case Ellipsis => 'e'
    case Void => 'v'
    case Bool => 'b'
    case Char => 'c'
    case Short => 's'
    case Int => 'i'
    case Long => 'l'
    case LongLong => 'x'
    case WideChar => 'w'
    case Float => 'f'
    case Double => 'd'
    case LongDouble => 'r'
  }

  function KindOf(c: char): (k: Option<Kind>)
    ensures forall kind :: Letter(kind) == c <==> k == Some(kind)
  {
    match c
    case 'C' => Some(Const)
    case 'P' => Some(Pointer)
    case 'R' => Some(Reference)
    case 'S' => Some(Signed)
    case 'U' => Some(Unsigned)
    case 'e' => Some(Ellipsis)
    case 'v' => Some(Void)
    case 'b' => Some(Bool)
    case 'c' => Some(Char)
    case 's' => Some(Short)
    case 'i' => Some(Int)
    case 'l' => Some(Long)
    case 'x' => Some(LongLong)
    case 'w' => Some(WideChar)
    case 'f' => Some(Float)
    case 'd' => Some(Double)
    case 'r' => Some(LongDouble)
    case _ => None
  }

  const KINDS := [Const, Pointer, Reference, Signed, Unsigned, Ellipsis, Void, Bool, Char, Short, Int, Long, LongLong,
                  WideChar, Float, Double, LongDouble]

  /** Every kind has its letter, and no other letter is one. */
  lemma LettersOfKinds(c: char)
    ensures |KINDS| == |"CPRSUevbcsilxwfdr"| && forall k: Kind :: k in KINDS
    ensures forall i :: 0 <= i < |KINDS| ==> KindOf("CPRSUevbcsilxwfdr"[i]) == Some(KINDS[i])
    ensures KindOf(c).Some? ==> c in "CPRSUevbcsilxwfdr"
  {
    forall k: Kind
      ensures k in KINDS
    {
      assert KINDS[match k
        case Const => 0 case Pointer => 1 case Reference => 2 case Signed => 3 case Unsigned => 4 case Ellipsis => 5
        case Void => 6 case Bool => 7 case Char => 8 case Short => 9 case Int => 10 case Long => 11 case LongLong => 12
        case WideChar => 13 case Float => 14 case Double => 15 case LongDouble => 16] == k;
    }
  }

  /** More of the type follows. */
  predicate Nonterminating(t: CxxTerm) {
    t.Array? || (t.Simple? && t.kind in {Const, Pointer, Reference, Signed, Unsigned})
  }

  // ----- reading text -----

  predicate NumberChar(c: char) {
    IsDigit(c) || c == '-'
  }

  predicate StartsNumber(s: string) {
    s != [] && NumberChar(s[0])
  }

  /** What ends a template parameter. */
  predicate AtSeparator(s: string) {
    s != [] && (s[0] == ',' || s[0] == '>')
  }

  /** How many number characters the text starts with. */
  function NumberLength(s: string): (k: nat)
    ensures k <= |s| && (forall i :: 0 <= i < k ==> NumberChar(s[i])) && (k < |s| ==> !NumberChar(s[k]))
  {
    if StartsNumber(s) then 1 + NumberLength(s[1..]) else 0
  }

  /** Conversion of number characters to an integer, if they are one. */
  function IntOf(s: string): Option<int> {
    if s == [] then None
    else if s[0] == '-' then (if |s| > 1 && AllDigits(s[1..]) then (var v: int := Value(s[1..]); Some(-v)) else None)
    else if AllDigits(s) then Some(Value(s))
    else None
  }

  function IndexOf(s: string, c: char): (i: nat)
    requires c in s
    ensures i < |s| && s[i] == c && c !in s[..i]
  {
    if s[0] == c then 0 else 1 + IndexOf(s[1..], c)
  }

  type Parsed<T> = Result<(T, string), Error>

  /** `CxxName.parse`: a template literal, or a name after its length, perhaps with template parameters. */
  function ParseName(s: string): (r: Parsed<CxxName>)
    ensures r.Ok? ==> |r.value.1| < |s|
    decreases |s|, 0
  {
    var k := NumberLength(s);
    if k == 0 then Err(Malformed)
    else
      var number, rest := IntOf(s[..k]), s[k..];
      if number.None? then Err(Malformed)
      else if AtSeparator(rest) then Ok((Plain(s[..k]), rest))
      else if number.value <= 0 || number.value > |rest| then Err(Malformed)
      else
        var name := ParseText(rest[..number.value]);
        if name.Err? then Err(name.error) else Ok((name.value, rest[number.value..]))
  }

  /** A name of known length: an identifier, or a template with its parameters. */
  function ParseText(text: string): (r: Result<CxxName, Error>)
    requires text != []
    decreases |text|, 4
  {
    if '<' !in text then Ok(Plain(text))
    else if text[|text| - 1] != '>' then Err(Malformed)
    else
      var i := IndexOf(text, '<');
      var params := ParseParams(text[i + 1..]);
      if params.Err? then Err(params.error) else Ok(Template(text[..i], params.value))
  }

  /** Template parameters up to the closing bracket, which must be the end of the text. */
  function ParseParams(s: string): (r: Result<seq<CxxType>, Error>)
    decreases |s|, 3
  {
    var t := ParseType(s);
    if t.Err? then Err(t.error)
    else
      var rest := t.value.1;
      if rest == [] then Err(Malformed)
      else if rest[0] == '>' then (if rest[1..] == [] then Ok([t.value.0]) else Err(Malformed))
      else if rest[0] == ',' then
        var more := ParseParams(rest[1..]);
        if more.Err? then more else Ok([t.value.0] + more.value)
      else Err(Malformed)
  }

  /** `CxxTerm.parse`. */
  function ParseTerm(s: string): (r: Parsed<CxxTerm>)
    ensures r.Ok? ==> |r.value.1| < |s|
    decreases |s|, 1
  {
    if StartsNumber(s) then
      var name := ParseName(s);
      if name.Err? then Err(name.error) else Ok((Qualified([name.value.0]), name.value.1))
    else if s == [] then Err(Malformed)
    else if s[0] == 'Q' then
      if |s| < 2 || !IsDigit(s[1]) then Err(Malformed)
      else
        var names := ParseNames(s[2..], DigitValue(s[1]));
        if names.Err? then Err(names.error) else Ok((Qualified(names.value.0), names.value.1))
    else if s[0] == 'F' then
      var params := ParseArguments(s[1..]);
      if params.Err? then Err(params.error)
      else
        var rest := params.value.1;
        if rest == [] || rest[0] != '_' then Ok((Function(params.value.0, None), rest))
        else
          var t := ParseType(rest[1..]);
          if t.Err? then Err(t.error) else Ok((Function(params.value.0, Some(t.value.0)), t.value.1))
    else if s[0] == 'A' then ParseDim(s[1..], 0)
    else if s[0] == '&' then Err(SymbolReference)
    else
      var kind := KindOf(s[0]);
      if kind.None? then Err(Malformed) else Ok((Simple(kind.value), s[1..]))
  }

  function ParseNames(s: string, count: nat): (r: Parsed<seq<CxxName>>)
    ensures r.Ok? ==> |r.value.1| <= |s|
    decreases |s|, 1
  {
    if count == 0 then Ok(([], s))
    else
      var name := ParseName(s);
      if name.Err? then Err(name.error)
      else
        var more := ParseNames(name.value.1, count - 1);
        if more.Err? then more else Ok(([name.value.0] + more.value.0, more.value.1))
  }

  /** What ends the parameters of a function. */
  predicate AtArgumentsEnd(s: string) {
    s == [] || s[0] == '_' || AtSeparator(s)
  }

  function ParseArguments(s: string): (r: Parsed<seq<CxxType>>)
    ensures r.Ok? ==> |r.value.1| <= |s|
    decreases |s|, 3
  {
    if AtArgumentsEnd(s) then Ok(([], s))
    else
      var t := ParseType(s);
      if t.Err? then Err(t.error)
      else
        var more := ParseArguments(t.value.1);
        if more.Err? then more else Ok(([t.value.0] + more.value.0, more.value.1))
  }

  function ParseDim(s: string, dim: nat): (r: Parsed<CxxTerm>)
    ensures r.Ok? ==> |r.value.1| < |s|
    decreases |s|, 1
  {
    if s == [] then Err(Malformed)
    else if s[0] == '_' then Ok((Array(dim), s[1..]))
    else if IsDigit(s[0]) then ParseDim(s[1..], dim * 10 + DigitValue(s[0]))
    else Err(Malformed)
  }

  /** `CxxType.parse`: terms up to the first that is complete, or to a separator. */
  function ParseType(s: string): (r: Parsed<CxxType>)
    ensures r.Ok? ==> |r.value.1| <= |s| && (!AtSeparator(s) ==> |r.value.1| < |s|)
    decreases |s|, 2
  {
    if AtSeparator(s) then Ok((CxxType([]), s))
    else
      var t := ParseTerm(s);
      if t.Err? then Err(t.error)
      else if !Nonterminating(t.value.0) then Ok((CxxType([t.value.0]), t.value.1))
      else
        var more := ParseType(t.value.1);
        if more.Err? then more else Ok((CxxType([t.value.0] + more.value.0.terms), more.value.1))
  }

  // ----- the encoding -----

  function Encode(t: CxxType): string {
    EncodeTerms(t.terms)
  }

  function EncodeTerms(terms: seq<CxxTerm>): string {
    if terms == [] then [] else EncodeTerm(terms[0]) + EncodeTerms(terms[1..])
  }

  function EncodeTerm(t: CxxTerm): string {
    match t
    case Simple(kind) => [Letter(kind)]
    case Array(dim) => "A" + Decimal(dim) + "_"
    case Qualified(names) =>
      if |names| == 1 then EncodeName(names[0]) else "Q" + Decimal(|names|) + EncodeNames(names)
    case Function(params, result) =>
      "F" + EncodeAll(params) + if result.Some? then "_" + Encode(result.value) else ""
  }

  function EncodeAll(types: seq<CxxType>): string {
    if types == [] then [] else Encode(types[0]) + EncodeAll(types[1..])
  }

  function EncodeNames(names: seq<CxxName>): string {
    if names == [] then [] else EncodeName(names[0]) + EncodeNames(names[1..])
  }

  /** A literal stands for itself; any other name comes after its length. */
  function EncodeName(n: CxxName): string {
    if IsLiteral(n) then n.name
    else
      var text := n.name + if n.Template? then "<" + EncodeParams(n.params) + ">" else "";
      Decimal(|text|) + text
  }

  predicate IsLiteral(n: CxxName) {
    n.Plain? && StartsNumber(n.name)
  }

  function EncodeParams(params: seq<CxxType>): string {
    if params == [] then []
    else Encode(params[0]) + if |params| == 1 then "" else "," + EncodeParams(params[1..])
  }

  // ----- well-formed types -----

  /** What may follow a type: anything, the end or a separator, or a separator. */
  datatype Follow = Anything | Stop | Separator

  predicate Allows(f: Follow, rest: string) {
    match f
    case Anything => true
    case Stop => rest == [] || AtSeparator(rest)
    case Separator => AtSeparator(rest)
  }

  /** The last term is complete and no other is, or a separator follows. */
  predicate WfType(t: CxxType, f: Follow) {
    WfTerms(t.terms, f)
  }

  predicate WfTerms(terms: seq<CxxTerm>, f: Follow) {
    if terms == [] then f == Separator
    else if Nonterminating(terms[0]) then WfTerms(terms[1..], f)
    else |terms| == 1 && WfTerm(terms[0], f)
  }

  /**
   * A function without a return type swallows everything up to a separator, so one inside another type
   * needs a return type unless it comes last.
   */
  predicate WfTerm(t: CxxTerm, f: Follow) {
    match t
    case Simple(_) => true
    case Array(_) => true
    case Qualified(names) => |names| <= 9 && WfNames(names, f)
    case Function(params, result) =>
      if result.Some? then WfArguments(params, Anything) && WfType(result.value, f)
      else f != Anything && WfArguments(params, f)
  }

  predicate WfArguments(types: seq<CxxType>, f: Follow) {
    types != [] ==> types[0].terms != [] && WfType(types[0], if |types| == 1 then f else Anything) && WfArguments(types[1..], f)
  }

  predicate WfNames(names: seq<CxxName>, f: Follow) {
    names != [] ==> WfName(names[0], if |names| == 1 then f else Anything) && WfNames(names[1..], f)
  }

  /** A plain name must not look like part of its length, like a literal, or like a template. */
  predicate WfName(n: CxxName, f: Follow) {
    if IsLiteral(n) then f == Separator && (forall c :: c in n.name ==> NumberChar(c)) && IntOf(n.name).Some?
    else
      && '<' !in n.name
      && (n.Plain? ==> n.name != [])
      && (n.name != [] ==> !NumberChar(n.name[0]) && n.name[0] != ',' && n.name[0] != '>')
      && (n.Template? ==> n.params != [] && WfParams(n.params))
  }

  predicate WfParams(params: seq<CxxType>) {
    params != [] ==> WfType(params[0], Separator) && WfParams(params[1..])
  }

  // ----- parsing undoes the encoding -----

  lemma {:induction false} NumberEnds(digits: string, rest: string)
    requires (forall c :: c in digits ==> NumberChar(c)) && !StartsNumber(rest)
    ensures NumberLength(digits + rest) == |digits|
  {
    if digits == [] {
      assert digits + rest == rest;
    } else {
      assert (digits + rest)[1..] == digits[1..] + rest;
      NumberEnds(digits[1..], rest);
    }
  }

  /** A length in front of a text. */
  lemma LengthPrefix(n: nat, text: string)
    requires !StartsNumber(text)
    ensures var s := Decimal(n) + text;
      NumberLength(s) == |Decimal(n)| && IntOf(s[..NumberLength(s)]) == Some(n) && s[NumberLength(s)..] == text
  {
    var digits := Decimal(n);
    NumberEnds(digits, text);
    ValueOfDecimal(n);
    var s := digits + text;
    assert s[..|digits|] == digits && s[|digits|..] == text;
    assert digits[0] in digits;
  }

  lemma {:induction false} DimRoundTrip(digits: string, rest: string, dim: nat)
    requires AllDigits(digits)
    ensures ParseDim(digits + "_" + rest, dim) == Ok((Array(Shifted(digits, dim)), rest))
  {
    var s := digits + "_" + rest;
    if digits == [] {
      assert s[1..] == rest;
    } else {
      assert s[0] == digits[0] && digits[0] in digits;
      assert s[1..] == digits[1..] + "_" + rest;
      DimRoundTrip(digits[1..], rest, dim * 10 + DigitValue(digits[0]));
    }
  }

  /** Reading digits from the left, after `n`. */
  function Shifted(digits: string, n: nat): nat
    requires AllDigits(digits)
  {
    if digits == [] then n else assert digits[0] in digits; Shifted(digits[1..], n * 10 + DigitValue(digits[0]))
  }

  lemma {:induction false} ShiftedAppend(digits: string, c: char, n: nat)
    requires AllDigits(digits) && IsDigit(c)
    ensures Shifted(digits + [c], n) == Shifted(digits, n) * 10 + DigitValue(c)
  {
    if digits == [] {
      assert digits + [c] == [c];
      assert Shifted([c], n) == Shifted([], n * 10 + DigitValue(c));
    } else {
      assert digits[0] in digits;
      assert (digits + [c])[1..] == digits[1..] + [c];
      ShiftedAppend(digits[1..], c, n * 10 + DigitValue(digits[0]));
    }
  }

  lemma {:induction false} ShiftedIsValue(digits: string)
    requires AllDigits(digits)
    ensures Shifted(digits, 0) == Value(digits)
  {
    if digits != [] {
      var k := |digits| - 1;
      assert digits == digits[..k] + [digits[k]] && digits[k] in digits;
      ShiftedAppend(digits[..k], digits[k], 0);
      ShiftedIsValue(digits[..k]);
    }
  }

  /** What an encoded type starts with is not taken for the end of a list. */
  predicate StartsTerm(s: string) {
    s != [] && s[0] != '_' && s[0] != ',' && s[0] != '>'
  }

  lemma NameStarts(n: CxxName, f: Follow)
    requires WfName(n, f)
    ensures StartsNumber(EncodeName(n)) && StartsTerm(EncodeName(n))
  {
    if IsLiteral(n) {
      assert n.name[0] in n.name;
    } else {
      var text := n.name + if n.Template? then "<" + EncodeParams(n.params) + ">" else "";
      assert EncodeName(n)[0] == Decimal(|text|)[0];
      assert Decimal(|text|)[0] in Decimal(|text|);
    }
  }

  lemma TermStarts(t: CxxTerm, f: Follow)
    requires Nonterminating(t) || WfTerm(t, f)
    ensures StartsTerm(EncodeTerm(t))
    ensures StartsNumber(EncodeTerm(t)) ==> t.Qualified? && |t.names| == 1
  {
    if t.Qualified? && |t.names| == 1 {
      NameStarts(t.names[0], f);
    }
  }

  // Single steps of the parsers, apart from any encoding.

  lemma TypeStep(s: string, t: CxxTerm, after: string, more: seq<CxxTerm>, rest: string)
    requires !AtSeparator(s) && ParseTerm(s) == Ok((t, after))
    requires if Nonterminating(t) then ParseType(after) == Ok((CxxType(more), rest)) else more == [] && after == rest
    ensures ParseType(s) == Ok((CxxType([t] + more), rest))
  {
    assert [t] + [] == [t];
  }

  lemma NamesStep(s: string, n: CxxName, after: string, more: seq<CxxName>, rest: string)
    requires ParseName(s) == Ok((n, after)) && ParseNames(after, |more|) == Ok((more, rest))
    ensures ParseNames(s, |more| + 1) == Ok(([n] + more, rest))
  {
  }

  lemma ArgumentsStep(s: string, t: CxxType, after: string, more: seq<CxxType>, rest: string)
    requires !AtArgumentsEnd(s) && ParseType(s) == Ok((t, after)) && ParseArguments(after) == Ok((more, rest))
    ensures ParseArguments(s) == Ok(([t] + more, rest))
  {
  }

  lemma Associate(a: string, b: string, c: string)
    ensures (a + b) + c == a + (b + c)
  {
  }

  lemma Whole<T>(s: seq<T>)
    requires s != []
    ensures [s[0]] + s[1..] == s
  {
  }

  lemma {:induction false} TermsRoundTrip(terms: seq<CxxTerm>, f: Follow, rest: string)
    requires WfTerms(terms, f) && Allows(f, rest)
    ensures ParseType(EncodeTerms(terms) + rest) == Ok((CxxType(terms), rest))
    decreases terms
  {
    if terms == [] {
      assert EncodeTerms(terms) + rest == rest;
    } else {
      var first, more := EncodeTerm(terms[0]), EncodeTerms(terms[1..]);
      Associate(first, more, rest);
      TermStarts(terms[0], f);
      if Nonterminating(terms[0]) {
        SimpleRoundTrip(terms[0], more + rest);
        TermsRoundTrip(terms[1..], f, rest);
      } else {
        assert terms[1..] == [] && more + rest == rest;
        TermRoundTrip(terms[0], f, rest);
      }
      TypeStep(EncodeTerms(terms) + rest, terms[0], more + rest, terms[1..], rest);
      Whole(terms);
    }
  }

  lemma SimpleRoundTrip(t: CxxTerm, rest: string)
    requires t.Simple? || t.Array?
    ensures ParseTerm(EncodeTerm(t) + rest) == Ok((t, rest))
  {
    var s := EncodeTerm(t) + rest;
    if t.Simple? {
      assert s[0] == Letter(t.kind) && s[1..] == rest;
    } else {
      assert s[1..] == Decimal(t.dim) + "_" + rest;
      DimRoundTrip(Decimal(t.dim), rest, 0);
      ShiftedIsValue(Decimal(t.dim));
      ValueOfDecimal(t.dim);
    }
  }

  lemma {:induction false} TermRoundTrip(t: CxxTerm, f: Follow, rest: string)
    requires WfTerm(t, f) && Allows(f, rest)
    ensures ParseTerm(EncodeTerm(t) + rest) == Ok((t, rest))
    decreases t
  {
    if t.Simple? || t.Array? {
      SimpleRoundTrip(t, rest);
    } else if t.Function? {
      FunctionRoundTrip(t, f, rest);
    } else if |t.names| == 1 {
      NameStarts(t.names[0], f);
      NameRoundTrip(t.names[0], f, rest);
      assert t.names == [t.names[0]];
      OneNameStep(EncodeName(t.names[0]) + rest, t.names[0], rest);
    } else {
      NamesRoundTrip(t.names, f, rest);
      QualifiedStep(EncodeNames(t.names) + rest, t.names, rest);
      Associate("Q" + Decimal(|t.names|), EncodeNames(t.names), rest);
    }
  }

  lemma OneNameStep(s: string, n: CxxName, rest: string)
    requires StartsNumber(s) && ParseName(s) == Ok((n, rest))
    ensures ParseTerm(s) == Ok((Qualified([n]), rest))
  {
  }

  lemma QualifiedStep(s: string, names: seq<CxxName>, rest: string)
    requires |names| <= 9 && ParseNames(s, |names|) == Ok((names, rest))
    ensures ParseTerm("Q" + Decimal(|names|) + s) == Ok((Qualified(names), rest))
  {
    assert Decimal(|names|) == [Digit(|names|)];
    assert ("Q" + Decimal(|names|) + s)[2..] == s;
  }

  lemma {:induction false} FunctionRoundTrip(t: CxxTerm, f: Follow, rest: string)
    requires t.Function? && WfTerm(t, f) && Allows(f, rest)
    ensures ParseTerm(EncodeTerm(t) + rest) == Ok((t, rest))
    decreases t, 0
  {
    var all := EncodeAll(t.params);
    if t.result.None? {
      ArgumentsRoundTrip(t.params, f, rest);
      assert EncodeTerm(t) == "F" + all + "" == "F" + all;
      Associate("F", all, rest);
      FunctionStep(all + rest, t.params, rest, None, rest);
    } else {
      var terms := t.result.value.terms;
      var after := EncodeTerms(terms) + rest;
      ArgumentsRoundTrip(t.params, Anything, "_" + after);
      TermsRoundTrip(terms, f, rest);
      ReturnText(all, EncodeTerms(terms), rest);
      FunctionStep(all + ("_" + after), t.params, "_" + after, Some(CxxType(terms)), rest);
    }
  }

  lemma ReturnText(all: string, result: string, rest: string)
    ensures "F" + all + ("_" + result) + rest == "F" + (all + ("_" + (result + rest)))
    ensures ("_" + (result + rest))[1..] == result + rest
  {
  }

  lemma FunctionStep(s: string, params: seq<CxxType>, after: string, result: Option<CxxType>, rest: string)
    requires ParseArguments(s) == Ok((params, after))
    requires if result.Some? then after != [] && after[0] == '_' && ParseType(after[1..]) == Ok((result.value, rest))
             else after == rest && (after == [] || after[0] != '_')
    ensures ParseTerm("F" + s) == Ok((Function(params, result), rest))
  {
    assert ("F" + s)[1..] == s;
  }

  lemma {:induction false} ArgumentsRoundTrip(types: seq<CxxType>, f: Follow, rest: string)
    requires WfArguments(types, f) && Allows(f, rest) && AtArgumentsEnd(rest)
    ensures ParseArguments(EncodeAll(types) + rest) == Ok((types, rest))
    decreases types
  {
    if types == [] {
      assert EncodeAll(types) + rest == rest;
    } else {
      var first, more := EncodeTerms(types[0].terms), EncodeAll(types[1..]);
      var g := if |types| == 1 then f else Anything;
      if |types| == 1 {
        assert types[1..] == [] && more + rest == rest;
      }
      Associate(first, more, rest);
      assert WfTerms(types[0].terms, g);
      TermStarts(types[0].terms[0], g);
      assert first[0] == EncodeTerm(types[0].terms[0])[0];
      TermsRoundTrip(types[0].terms, g, more + rest);
      ArgumentsRoundTrip(types[1..], f, rest);
      assert EncodeAll(types) == first + more;
      assert (EncodeAll(types) + rest)[0] == first[0];
      ArgumentsStep(EncodeAll(types) + rest, types[0], more + rest, types[1..], rest);
      Whole(types);
    }
  }

  lemma {:induction false} NamesRoundTrip(names: seq<CxxName>, f: Follow, rest: string)
    requires WfNames(names, f) && Allows(f, rest)
    ensures ParseNames(EncodeNames(names) + rest, |names|) == Ok((names, rest))
    decreases names
  {
    if names == [] {
      assert EncodeNames(names) + rest == rest;
    } else {
      var more := EncodeNames(names[1..]);
      if |names| == 1 {
        assert names[1..] == [] && more + rest == rest;
      }
      Associate(EncodeName(names[0]), more, rest);
      NameRoundTrip(names[0], if |names| == 1 then f else Anything, more + rest);
      NamesRoundTrip(names[1..], f, rest);
      NamesStep(EncodeNames(names) + rest, names[0], more + rest, names[1..], rest);
      Whole(names);
    }
  }

  /** Parsing a text after its length. */
  lemma NameStep(s: string, text: string, rest: string)
    requires var k := NumberLength(s);
      k > 0 && IntOf(s[..k]) == Some(|text|) && !AtSeparator(s[k..]) && s[k..] == text + rest && text != []
    ensures ParseText(text).Ok? ==> ParseName(s) == Ok((ParseText(text).value, rest))
  {
    var k := NumberLength(s);
    assert s[k..][..|text|] == text && s[k..][|text|..] == rest;
  }

  lemma {:induction false} NameRoundTrip(n: CxxName, f: Follow, rest: string)
    requires WfName(n, f) && Allows(f, rest)
    ensures ParseName(EncodeName(n) + rest) == Ok((n, rest))
    decreases n
  {
    if IsLiteral(n) {
      var s := n.name + rest;
      NumberEnds(n.name, rest);
      assert s[..|n.name|] == n.name && s[|n.name|..] == rest;
    } else if n.Plain? {
      assert n.name + "" == n.name;
      TextAfterLength(n.name, rest);
      NameStep(EncodeName(n) + rest, n.name, rest);
    } else {
      ParamsRoundTrip(n.params);
      TemplateStep(n, rest);
    }
  }

  /** The text of a template, after its length. */
  function TemplateText(n: CxxName): string
    requires n.Template?
  {
    n.name + ['<'] + (EncodeParams(n.params) + ">")
  }

  lemma EncodeTemplate(n: CxxName)
    requires n.Template?
    ensures EncodeName(n) == Decimal(|TemplateText(n)|) + TemplateText(n)
  {
    assert n.name + ("<" + EncodeParams(n.params) + ">") == TemplateText(n);
  }

  lemma TemplateStep(n: CxxName, rest: string)
    requires n.Template? && WfName(n, Anything) && ParseParams(EncodeParams(n.params) + ">") == Ok(n.params)
    ensures ParseName(EncodeName(n) + rest) == Ok((n, rest))
  {
    var text, inside := TemplateText(n), EncodeParams(n.params) + ">";
    EncodeTemplate(n);
    FirstIndex(n.name, '<', inside);
    assert text[|n.name| + 1..] == inside && text[..|n.name|] == n.name;
    assert text[|text| - 1] == inside[|inside| - 1] == '>' && text[|n.name|] == '<';
    TextAfterLength(text, rest);
    NameStep(EncodeName(n) + rest, text, rest);
  }

  /** The length in front of a text is read, and nothing more. */
  lemma TextAfterLength(text: string, rest: string)
    requires text != [] && !NumberChar(text[0]) && text[0] != ',' && text[0] != '>'
    ensures var s := Decimal(|text|) + text + rest;
      var k := NumberLength(s);
      k > 0 && IntOf(s[..k]) == Some(|text|) && !AtSeparator(s[k..]) && s[k..] == text + rest
  {
    Associate(Decimal(|text|), text, rest);
    LengthPrefix(|text|, text + rest);
  }

  lemma {:induction false} FirstIndex(a: string, c: char, b: string)
    requires c !in a
    ensures IndexOf(a + [c] + b, c) == |a|
  {
    var s := a + [c] + b;
    if a != [] {
      assert s[0] == a[0] && a[0] in a && s[1..] == a[1..] + [c] + b;
      FirstIndex(a[1..], c, b);
    }
  }

  lemma ParamsStep(s: string, t: CxxType, more: seq<CxxType>, after: string)
    requires ParseType(s) == Ok((t, after)) && after != []
    requires if more == [] then after == ">" else after[0] == ',' && ParseParams(after[1..]) == Ok(more)
    ensures ParseParams(s) == Ok([t] + more)
  {
    assert [t] + [] == [t];
  }

  lemma {:induction false} ParamsRoundTrip(params: seq<CxxType>)
    requires params != [] && WfParams(params)
    ensures ParseParams(EncodeParams(params) + ">") == Ok(params)
    decreases params
  {
    var first, more := EncodeTerms(params[0].terms), params[1..];
    var after := if |params| == 1 then ">" else "," + (EncodeParams(more) + ">");
    assert EncodeParams(params) + ">" == first + after by {
      if |params| == 1 {
        assert EncodeParams(params) == first + "" == first;
      } else {
        assert EncodeParams(params) == first + ("," + EncodeParams(more));
      }
    }
    TermsRoundTrip(params[0].terms, Separator, after);
    if |params| > 1 {
      assert after[1..] == EncodeParams(more) + ">";
      ParamsRoundTrip(more);
    }
    ParamsStep(EncodeParams(params) + ">", params[0], more, after);
    Whole(params);
  }

  /** Parsing the encoding of a type returns the type, and consumes exactly that text. */
  lemma RoundTrip(t: CxxType, f: Follow, rest: string)
    requires WfType(t, f) && Allows(f, rest)
    ensures ParseType(Encode(t) + rest) == Ok((t, rest))
  {
    TermsRoundTrip(t.terms, f, rest);
  }

  /** Different types have different encodings. */
  lemma EncodingInjective(t: CxxType, u: CxxType)
    requires WfType(t, Stop) && WfType(u, Stop) && Encode(t) == Encode(u)
    ensures t == u
  {
    RoundTrip(t, Stop, "");
    RoundTrip(u, Stop, "");
    assert Encode(t) + "" == Encode(u) + "";
  }

  lemma TwoTerms(a: CxxTerm, b: CxxTerm)
    ensures EncodeTerms([a]) == EncodeTerm(a) && EncodeTerms([a, b]) == EncodeTerm(a) + EncodeTerm(b)
  {
    assert [a][1..] == [] && [b][1..] == [] && [a, b][1..] == [b];
    assert EncodeTerms([b]) == EncodeTerm(b);
  }

  lemma TwoTypes(a: CxxType, b: CxxType)
    ensures EncodeAll([a]) == Encode(a) && EncodeAll([a, b]) == Encode(a) + Encode(b)
    ensures EncodeParams([a, b]) == Encode(a) + "," + Encode(b)
  {
    assert [a][1..] == [] && [b][1..] == [] && [a, b][1..] == [b];
    assert EncodeAll([b]) == Encode(b) && EncodeParams([b]) == Encode(b);
  }

  lemma TwoNames(a: CxxName, b: CxxName)
    ensures EncodeNames([a, b]) == EncodeName(a) + EncodeName(b)
    ensures EncodeTerm(Qualified([a])) == EncodeName(a) && EncodeTerm(Qualified([a, b])) == "Q2" + EncodeNames([a, b])
  {
    assert [a, b][1..] == [b] && [b][1..] == [];
    assert EncodeNames([b]) == EncodeName(b);
    assert Decimal(2) == [Digit(2)] == "2";
  }

  lemma ShortName(name: string, text: string)
    requires name != [] && !StartsNumber(name) && |text| < 10
    ensures text == name ==> EncodeName(Plain(name)) == [Digit(|text|)] + text
  {
  }

  /** `Bar &`. */
  lemma ReferenceExample(t: CxxType)
    requires t.terms == [Simple(Reference), Qualified([Plain("Bar")])]
    ensures Encode(t) == "R3Bar"
  {
    ShortName("Bar", "Bar");
    TwoNames(Plain("Bar"), Plain("Bar"));
    TwoTerms(Simple(Reference), Qualified([Plain("Bar")]));
  }

  /** The text after `check__3Foo` in the source's own example, `Foo::check (long unsigned, Bar &) const`. */
  lemma DocumentedExample(first: CxxType, second: CxxType, t: CxxType)
    requires first.terms == [Simple(Unsigned), Simple(Long)] && Encode(second) == "R3Bar"
    requires t.terms == [Simple(Const), Function([first, second], None)]
    ensures Encode(t) == "CFUlR3Bar"
  {
    TwoTerms(Simple(Unsigned), Simple(Long));
    TwoTypes(first, second);
    TwoTerms(Simple(Const), Function([first, second], None));
    assert Encode(first) == "Ul";
  }

  /** The class `Bar<char, 5>`. */
  lemma TemplateExample(five: CxxType, single: CxxType, bar: CxxName)
    requires five.terms == [Qualified([Plain("5")])] && single.terms == [Simple(Char)] && bar == Template("Bar", [single, five])
    ensures EncodeName(bar) == "8Bar<c,5>"
  {
    TwoNames(Plain("5"), Plain("5"));
    TwoTerms(Qualified([Plain("5")]), Simple(Char));
    TwoTerms(Simple(Char), Simple(Char));
    TwoTypes(single, five);
    assert EncodeParams([single, five]) == "c,5";
    assert Decimal(8) == [Digit(8)] == "8";
    assert "Bar" + ("<" + "c,5" + ">") == "Bar<c,5>";
  }

  /** The class `Foo::Bar<char, 5>`. */
  lemma QualifiedExample(bar: CxxName, t: CxxType)
    requires EncodeName(bar) == "8Bar<c,5>" && t.terms == [Qualified([Plain("Foo"), bar])]
    ensures Encode(t) == "Q23Foo8Bar<c,5>"
  {
    ShortName("Foo", "Foo");
    TwoNames(Plain("Foo"), bar);
    TwoTerms(Qualified([Plain("Foo"), bar]), Simple(Char));
  }

  /** An array of ten functions from `void *` to a type. */
  lemma ArrayExample(param: CxxType, result: CxxType, t: CxxType)
    requires param.terms == [Simple(Pointer), Simple(Void)] && t.terms == [Array(10), Function([param], Some(result))]
    ensures Encode(t) == "A10_FPv_" + Encode(result)
  {
    TwoTerms(Simple(Pointer), Simple(Void));
    TwoTypes(param, param);
    assert Encode(param) == "Pv";
    assert Decimal(10) == Decimal(1) + [Digit(0)];
    TwoTerms(Array(10), Function([param], Some(result)));
    assert EncodeTerm(Array(10)) == "A10_";
  }
}
