/** The parsers of m2c/demangle_codewarrior.py as they are: on a shared stream with a cursor. */
module Demangler {
  import opened Wrappers
  import opened Decimals
  import opened Demangle

  /** What was read so far, in front of the rest. */
  function After<T>(done: seq<T>, r: Parsed<seq<T>>): Parsed<seq<T>> {
    if r.Err? then r else Ok((done + r.value.0, r.value.1))
  }

  function TypeAfter(done: seq<CxxTerm>, r: Parsed<CxxType>): Parsed<CxxType> {
    if r.Err? then r else Ok((CxxType(done + r.value.0.terms), r.value.1))
  }

  function ParamsAfter(done: seq<CxxType>, r: Result<seq<CxxType>, Error>): Result<seq<CxxType>, Error> {
    if r.Err? then r else Ok(done + r.value)
  }

  lemma NothingDone<T>(r: Parsed<seq<T>>)
    ensures After([], r) == r
  {
    if r.Ok? {
      assert [] + r.value.0 == r.value.0;
    }
  }

  lemma TypeBegins(s: string)
    ensures TypeAfter([], ParseType(s)) == ParseType(s)
    ensures ParamsAfter([], ParseParams(s)) == ParseParams(s)
  {
    if ParseType(s).Ok? {
      assert [] + ParseType(s).value.0.terms == ParseType(s).value.0.terms;
    }
    if ParseParams(s).Ok? {
      assert [] + ParseParams(s).value == ParseParams(s).value;
    }
  }

  lemma TypeGoesOn(s: string, done: seq<CxxTerm>, rest: string, t: CxxTerm, after: string)
    requires ParseType(s) == TypeAfter(done, ParseType(rest)) && !AtSeparator(rest) && ParseTerm(rest) == Ok((t, after))
    ensures ParseType(s) ==
      if Nonterminating(t) then TypeAfter(done + [t], ParseType(after)) else Ok((CxxType(done + [t]), after))
  {
    if Nonterminating(t) && ParseType(after).Ok? {
      var more := ParseType(after).value.0.terms;
      assert done + ([t] + more) == done + [t] + more;
    }
  }

  lemma TypeIsDone(s: string, done: seq<CxxTerm>, rest: string)
    requires ParseType(s) == TypeAfter(done, ParseType(rest)) && AtSeparator(rest)
    ensures ParseType(s) == Ok((CxxType(done), rest))
  {
    assert done + [] == done;
  }

  lemma ArgumentsGoOn(s: string, done: seq<CxxType>, rest: string, t: CxxType, after: string)
    requires ParseArguments(s) == After(done, ParseArguments(rest)) && !AtArgumentsEnd(rest) && ParseType(rest) == Ok((t, after))
    ensures ParseArguments(s) == After(done + [t], ParseArguments(after))
  {
    if ParseArguments(after).Ok? {
      var more := ParseArguments(after).value.0;
      assert done + ([t] + more) == done + [t] + more;
    }
  }

  lemma ArgumentsAreDone(s: string, done: seq<CxxType>, rest: string)
    requires ParseArguments(s) == After(done, ParseArguments(rest)) && AtArgumentsEnd(rest)
    ensures ParseArguments(s) == Ok((done, rest))
  {
    assert done + [] == done;
  }

  lemma NamesGoOn(s: string, count: nat, done: seq<CxxName>, rest: string, left: nat, n: CxxName, after: string)
    requires ParseNames(s, count) == After(done, ParseNames(rest, left)) && left > 0 && ParseName(rest) == Ok((n, after))
    ensures ParseNames(s, count) == After(done + [n], ParseNames(after, left - 1))
  {
    if ParseNames(after, left - 1).Ok? {
      var more := ParseNames(after, left - 1).value.0;
      assert done + ([n] + more) == done + [n] + more;
    }
  }

  lemma NamesAreDone(s: string, count: nat, done: seq<CxxName>, rest: string)
    requires ParseNames(s, count) == After(done, ParseNames(rest, 0))
    ensures ParseNames(s, count) == Ok((done, rest))
  {
    assert done + [] == done;
  }

  lemma ParamsGoOn(s: string, done: seq<CxxType>, rest: string, t: CxxType, after: string)
    requires ParseParams(s) == ParamsAfter(done, ParseParams(rest)) && ParseType(rest) == Ok((t, after)) && after != []
    ensures after[0] == ',' ==> ParseParams(s) == ParamsAfter(done + [t], ParseParams(after[1..]))
    ensures after == ">" ==> ParseParams(s) == Ok(done + [t])
    ensures after[0] == '>' && after[1..] != [] ==> ParseParams(s) == Err(Malformed)
    ensures after[0] != ',' && after[0] != '>' ==> ParseParams(s) == Err(Malformed)
  {
    if after[0] == ',' && ParseParams(after[1..]).Ok? {
      var more := ParseParams(after[1..]).value;
      assert done + ([t] + more) == done + [t] + more;
    }
  }

  class Stream {
    const text: string
    var pos: nat

    constructor (text: string)
      ensures this.text == text && pos == 0 && Valid()
    {
      this.text, pos := text, 0;
    }

    ghost predicate Valid()
      reads this
    {
      pos <= |text|
    }

    function Rest(): string
      requires Valid()
      reads this
    {
      text[pos..]
    }

    /** Reads exactly `size` characters, or fails. */
    method ReadExact(size: nat) returns (r: Result<string, Error>)
      requires Valid()
      modifies `pos
      ensures Valid()
      ensures r.Ok? <==> size <= |old(Rest())|
      ensures r.Ok? ==> r.value == old(Rest())[..size] && Rest() == old(Rest())[size..]
      ensures r.Err? ==> r.error == Malformed && Rest() == []
    {
      if size > |text| - pos {
        pos := |text|;
        return Err(Malformed);
      }
      var value := text[pos..pos + size];
      pos := pos + size;
      return Ok(value);
    }

    /** Reads the number characters ahead. */
    method ReadNumber() returns (number: string)
      requires Valid()
      modifies `pos
      ensures Valid() && |number| == NumberLength(old(Rest()))
      ensures number == old(Rest())[..|number|] && Rest() == old(Rest())[|number|..]
    {
      ghost var s := Rest();
      number := "";
      while StartsNumber(Rest())
        invariant Valid() && |number| <= |s| && number == s[..|number|] && Rest() == s[|number|..]
        invariant NumberLength(s) == |number| + NumberLength(Rest())
        decreases |Rest()|
      {
        var c := ReadExact(1);
        number := number + c.value;
      }
    }

    method ParseName() returns (r: Result<CxxName, Error>)
      requires Valid()
      modifies `pos
      ensures Valid() && |Rest()| <= |old(Rest())| && (r.Ok? ==> |Rest()| < |old(Rest())|)
      ensures if r.Ok? then Demangle.ParseName(old(Rest())) == Ok((r.value, Rest()))
              else Demangle.ParseName(old(Rest())) == Err(r.error)
      decreases |Rest()|, 0
    {
      ghost var s := Rest();
      var numberStr := ReadNumber();
      if numberStr == "" {
        return Err(Malformed);
      }
      var number := IntOf(numberStr);
      if number.None? {
        return Err(Malformed);
      }
      // A template literal?
      if AtSeparator(Rest()) {
        return Ok(Plain(numberStr));
      }
      // Otherwise, the length of the name.
      if number.value <= 0 {
        return Err(Malformed);
      }
      var read := ReadExact(number.value);
      if read.Err? {
        return Err(Malformed);
      }
      r := ParseText(read.value);
    }

    /** A name of known length; template parameters are parsed on a stream of their own. */
    static method ParseText(name: string) returns (r: Result<CxxName, Error>)
      requires name != []
      ensures r == Demangle.ParseText(name)
      decreases |name|, 4
    {
      // Simple case: plain identifier.
      if '<' !in name {
        return Ok(Plain(name));
      }
      if name[|name| - 1] != '>' {
        return Err(Malformed);
      }
      var i := IndexOf(name, '<');
      var buf := new Stream(name[i + 1..]);
      var params := buf.ParseParams();
      if params.Err? {
        return Err(params.error);
      }
      return Ok(Template(name[..i], params.value));
    }

    /** The parameters of a template, on a stream of their own that must be used up. */
    method ParseParams() returns (r: Result<seq<CxxType>, Error>)
      requires Valid()
      modifies `pos
      ensures Valid() && r == Demangle.ParseParams(old(Rest()))
      decreases |Rest()|, 3
    {
      ghost var s := Rest();
      TypeBegins(s);
      var params: seq<CxxType> := [];
      while true
        invariant Valid() && |Rest()| <= |s|
        invariant Demangle.ParseParams(s) == ParamsAfter(params, Demangle.ParseParams(Rest()))
        decreases |Rest()|
      {
        ghost var before := Rest();
        var t := ParseType();
        if t.Err? {
          return Err(t.error);
        }
        ghost var after := Rest();
        if after != [] {
          ParamsGoOn(s, params, before, t.value, after);
        }
        params := params + [t.value];
        var sep := ReadExact(1);
        if sep.Err? {
          return Err(Malformed);
        }
        if sep.value == ">" {
          if Rest() != [] {
            return Err(Malformed);
          }
          return Ok(params);
        }
        if sep.value != "," {
          return Err(Malformed);
        }
      }
    }

    method ParseTerm() returns (r: Result<CxxTerm, Error>)
      requires Valid()
      modifies `pos
      ensures Valid() && |Rest()| <= |old(Rest())| && (r.Ok? ==> |Rest()| < |old(Rest())|)
      ensures if r.Ok? then Demangle.ParseTerm(old(Rest())) == Ok((r.value, Rest()))
              else Demangle.ParseTerm(old(Rest())) == Err(r.error)
      decreases |Rest()|, 1
    {
      if StartsNumber(Rest()) {
        var name := ParseName();
        if name.Err? {
          return Err(name.error);
        }
        return Ok(Qualified([name.value]));
      }
      ghost var s := Rest();
      var letter := ReadExact(1);
      if letter.Err? {
        return Err(Malformed);
      }
      assert s == [letter.value[0]] + Rest();
      match letter.value[0] {
        case 'Q' => r := ParseQualified();
        case 'F' => r := ParseFunction();
        case 'A' => r := ParseArray();
        case '&' => r := Err(SymbolReference);
        case c =>
          var kind := KindOf(c);
          r := if kind.None? then Err(Malformed) else Ok(Simple(kind.value));
      }
    }

    method ParseQualified() returns (r: Result<CxxTerm, Error>)
      requires Valid()
      modifies `pos
      ensures Valid() && |Rest()| <= |old(Rest())|
      ensures if r.Ok? then Demangle.ParseTerm("Q" + old(Rest())) == Ok((r.value, Rest()))
              else Demangle.ParseTerm("Q" + old(Rest())) == Err(r.error)
      decreases |Rest()|, 5
    {
      ghost var s := Rest();
      assert s != [] ==> ("Q" + s)[2..] == s[1..];
      var digit := ReadExact(1);
      if digit.Err? || !IsDigit(digit.value[0]) {
        return Err(Malformed);
      }
      var count := DigitValue(digit.value[0]);
      ghost var start := Rest();
      NothingDone(ParseNames(start, count));
      var names: seq<CxxName> := [];
      for k := 0 to count
        invariant Valid() && |Rest()| <= |start| < |s|
        invariant ParseNames(start, count) == After(names, ParseNames(Rest(), count - k))
      {
        ghost var before := Rest();
        var name := ParseName();
        if name.Err? {
          return Err(name.error);
        }
        NamesGoOn(start, count, names, before, count - k, name.value, Rest());
        names := names + [name.value];
      }
      NamesAreDone(start, count, names, Rest());
      r := Ok(Qualified(names));
    }

    method ParseFunction() returns (r: Result<CxxTerm, Error>)
      requires Valid()
      modifies `pos
      ensures Valid() && |Rest()| <= |old(Rest())|
      ensures if r.Ok? then Demangle.ParseTerm("F" + old(Rest())) == Ok((r.value, Rest()))
              else Demangle.ParseTerm("F" + old(Rest())) == Err(r.error)
      decreases |Rest()|, 5
    {
      ghost var s := Rest();
      assert ("F" + s)[1..] == s;
      NothingDone(ParseArguments(s));
      var params: seq<CxxType> := [];
      while !AtArgumentsEnd(Rest())
        invariant Valid() && |Rest()| <= |s|
        invariant ParseArguments(s) == After(params, ParseArguments(Rest()))
        decreases |Rest()|
      {
        ghost var before := Rest();
        var t := ParseType();
        if t.Err? {
          return Err(t.error);
        }
        ArgumentsGoOn(s, params, before, t.value, Rest());
        params := params + [t.value];
      }
      ArgumentsAreDone(s, params, Rest());
      var result: Option<CxxType> := None;
      if Rest() != [] && Rest()[0] == '_' {
        var underscore := ReadExact(1);
        var t := ParseType();
        if t.Err? {
          return Err(t.error);
        }
        result := Some(t.value);
      }
      r := Ok(Function(params, result));
    }

    method ParseArray() returns (r: Result<CxxTerm, Error>)
      requires Valid()
      modifies `pos
      ensures Valid() && |Rest()| <= |old(Rest())|
      ensures if r.Ok? then ParseDim(old(Rest()), 0) == Ok((r.value, Rest())) else ParseDim(old(Rest()), 0) == Err(r.error)
    {
      ghost var s := Rest();
      var dim: nat := 0;
      while true
        invariant Valid() && |Rest()| <= |s| && ParseDim(Rest(), dim) == ParseDim(s, 0)
        decreases |Rest()|
      {
        var c := ReadExact(1);
        if c.Err? {
          return Err(Malformed);
        }
        if c.value == "_" {
          return Ok(Array(dim));
        }
        if !IsDigit(c.value[0]) {
          return Err(Malformed);
        }
        dim := dim * 10 + DigitValue(c.value[0]);
      }
    }

    method ParseType() returns (r: Result<CxxType, Error>)
      requires Valid()
      modifies `pos
      ensures Valid() && |Rest()| <= |old(Rest())|
      ensures r.Ok? && !AtSeparator(old(Rest())) ==> |Rest()| < |old(Rest())|
      ensures if r.Ok? then Demangle.ParseType(old(Rest())) == Ok((r.value, Rest()))
              else Demangle.ParseType(old(Rest())) == Err(r.error)
      decreases |Rest()|, 2
    {
      ghost var s := Rest();
      TypeBegins(s);
      var terms: seq<CxxTerm> := [];
      while true
        invariant Valid() && |Rest()| <= |s| && (terms != [] ==> |Rest()| < |s|)
        invariant Demangle.ParseType(s) == TypeAfter(terms, Demangle.ParseType(Rest()))
        decreases |Rest()|
      {
        if AtSeparator(Rest()) {
          TypeIsDone(s, terms, Rest());
          break;
        }
        ghost var before := Rest();
        var t := ParseTerm();
        if t.Err? {
          return Err(t.error);
        }
        TypeGoesOn(s, terms, before, t.value, Rest());
        terms := terms + [t.value];
        if !Nonterminating(t.value) {
          break;
        }
      }
      r := Ok(CxxType(terms));
    }
  }
}
