/**
 The recursive-descent reader of stored type texts.  `ParseType` and the functions it calls
 specify it; the methods are the reader itself, which advances a position over the text.
 */
module TypeParser {
  import opened Decimals
  import opened TypeNames
  import opened TypeSpec

  /** What a read leaves: the value and the next position, or nothing when it threw. */
  datatype Parsed<T> = Failed | Done(value: T, next: nat)

  datatype Head = HDecimal | HUnknown | HList | HArray | HMap | HStruct | HUnion | HOther

  const KEYWORDS: seq<(string, Head)> := [
    ("numeric", HDecimal), ("DECIMAL", HDecimal), ("UNKNOWN", HUnknown), ("LIST", HList),
    ("ARRAY", HArray), ("MAP", HMap), ("STRUCT", HStruct), ("UNION", HUnion)]

  function HeadOf(name: string): Head {
    match Lookup(KEYWORDS, 0, name)
    case Some(h) => h
    case None => HOther
  }

  // ------------------------------------------------------------ specification

  /** Where the token that starts at `pos` ends. */
  function TokenEnd(s: string, pos: nat): (e: nat)
    requires pos <= |s|
    ensures pos <= e <= |s|
    decreases |s| - pos
  {
    if pos == |s| || IsStop(s[pos]) then pos else TokenEnd(s, pos + 1)
  }

  /** A type written without arguments. */
  function Leaf(name: string): Type {
    if name == "VARIANT" then Variant
    else match KindOf(name)
      case Some(k) => Scalar(k)
      case None => Unknown(name)
  }

  /** Width and scale pass through 8-bit casts; a width over 38 throws. */
  function DecimalAt(w: string, sc: string, next: nat): Parsed<Type> {
    match (ReadInt(w, INT_MIN, INT_MAX), ReadInt(sc, INT_MIN, INT_MAX))
    case (Some(wv), Some(scv)) =>
      if wv % 256 > MAX_WIDTH then Failed else Done(Decimal(wv % 256, scv % 256), next)
    case _ => Done(Bare, next)
  }

  function DecimalArgs(s: string, p: nat): (r: Parsed<Type>)
    requires p <= |s|
    ensures r.Done? ==> r.next >= p
  {
    var w := TokenEnd(s, p);
    if w + 1 > |s| then Failed
    else var sc := TokenEnd(s, w + 1); DecimalAt(s[p..w], s[w + 1..sc], sc + 1)
  }

  function ArrayAt(inner: Type, size: string, next: nat): Parsed<Type> {
    match ReadNat(size, ULLONG_MAX)
    case Some(n) => Done(Array(inner, n), next)
    case None => Done(Bare, next)
  }

  function SizeArg(inner: Type, s: string, p: nat): (r: Parsed<Type>)
    ensures r.Done? ==> r.next >= p
  {
    if p > |s| then Failed else var e := TokenEnd(s, p); ArrayAt(inner, s[p..e], e + 1)
  }

  /** Where the search for the parenthesis that closes `depth` open ones stops. */
  function Skip(s: string, pos: nat, depth: nat): (e: nat)
    requires pos <= |s|
    ensures pos <= e <= |s|
    decreases |s| - pos
  {
    if pos == |s| || depth == 0 then pos
    else if s[pos] == '(' then Skip(s, pos + 1, depth + 1)
    else if s[pos] == ')' then Skip(s, pos + 1, depth - 1)
    else Skip(s, pos + 1, depth)
  }

  function Close(s: string, pos: nat): nat {
    if pos < |s| && s[pos] == ')' then pos + 1 else pos
  }

  /** What is left to read from `pos`; a position past the end has nothing left. */
  function Left(s: string, pos: nat): nat {
    if pos <= |s| then |s| - pos + 1 else 0
  }

  function ParseType(s: string, pos: nat): (r: Parsed<Type>)
    ensures r.Done? ==> r.next >= pos
    decreases Left(s, pos), 2
  {
    if pos > |s| then Failed
    else
      var e := TokenEnd(s, pos);
      var name := s[pos..e];
      if e == |s| || s[e] != '(' then Done(Leaf(name), e)
      else ParseArgs(HeadOf(name), name, s, e + 1)
  }

  /** The arguments of a keyword, from just inside its parenthesis. */
  function ParseArgs(h: Head, name: string, s: string, p: nat): (r: Parsed<Type>)
    requires p <= |s|
    ensures r.Done? ==> r.next >= p
    decreases Left(s, p), 3
  {
    match h
    case HDecimal => DecimalArgs(s, p)
    case HUnknown =>
      var e := TokenEnd(s, p);
      Done(Unknown(s[p..e]), e + 1)
    case HList => (
      match ParseType(s, p)
      case Failed => Failed
      case Done(t, q) => Done(List(t), q + 1))
    case HArray => (
      match ParseType(s, p)
      case Failed => Failed
      case Done(t, q) => SizeArg(t, s, q + 1))
    case HMap => (
      match ParseType(s, p)
      case Failed => Failed
      case Done(k, q) =>
        match ParseType(s, q + 1)
        case Failed => Failed
        case Done(v, q') => Done(Map(k, v), q' + 1))
    case HStruct => (
      var e := TokenEnd(s, p);
      match ParseMembers(s, e)
      case Failed => Failed
      case Done(fs, q) => Done(Struct(s[p..e], fs), Close(s, q)))
    case HUnion => (
      match ParseListed(s, p)
      case Failed => Failed
      case Done(fs, q) => Done(Union(fs), Close(s, q)))
    case HOther => Done(Unknown(name), Skip(s, p, 1))
  }

  function ParseMember(s: string, p: nat): (r: Parsed<Field>)
    requires p <= |s|
    ensures r.Done? ==> r.next > p
    decreases Left(s, p), 0
  {
    var e := TokenEnd(s, p);
    match ParseType(s, e + 1)
    case Failed => Failed
    case Done(t, q) => Done(Field(s[p..e], t), q)
  }

  function ParseMembers(s: string, pos: nat): (r: Parsed<seq<Field>>)
    ensures r.Done? ==> r.next >= pos
    decreases Left(s, pos), 1
  {
    if pos < |s| && s[pos] == ',' then
      match ParseMember(s, pos + 1)
      case Failed => Failed
      case Done(f, q) =>
        match ParseMembers(s, q)
        case Failed => Failed
        case Done(fs, q') => Done([f] + fs, q')
    else Done([], pos)
  }

  function ParseListed(s: string, p: nat): (r: Parsed<seq<Field>>)
    requires p <= |s|
    ensures r.Done? ==> r.next >= p
    decreases Left(s, p), 2
  {
    if p < |s| && s[p] != ')' then
      match ParseMember(s, p)
      case Failed => Failed
      case Done(f, q) =>
        match ParseMembers(s, q)
        case Failed => Failed
        case Done(fs, q') => Done([f] + fs, q')
    else ParseMembers(s, p)
  }

  // ------------------------------------------------------------ the reader

  /** A token, or the exception a position past the end raises. */
  method ReadToken(s: string, start: nat) returns (tok: Option<string>, pos: nat)
    ensures start > |s| ==> tok == None
    ensures start <= |s| ==> pos == TokenEnd(s, start) && tok == Some(s[start..pos])
  {
    pos := start;
    while pos < |s| && !IsStop(s[pos])
      invariant start <= |s| ==> start <= pos <= |s| && TokenEnd(s, pos) == TokenEnd(s, start)
      invariant start > |s| ==> pos == start
    {
      pos := pos + 1;
    }
    tok := if start > |s| then None else Some(s[start..pos]);
  }

  method SkipArgs(s: string, p: nat) returns (pos: nat)
    requires p <= |s|
    ensures pos == Skip(s, p, 1)
  {
    pos := p;
    var depth := 1;
    while pos < |s| && depth > 0
      invariant p <= pos <= |s| && depth >= 0
      invariant Skip(s, pos, depth) == Skip(s, p, 1)
    {
      if s[pos] == '(' {
        depth := depth + 1;
      } else if s[pos] == ')' {
        depth := depth - 1;
      }
      pos := pos + 1;
    }
  }

  method ParseFlatType(s: string, start: nat) returns (r: Parsed<Type>)
    ensures r == ParseType(s, start)
    decreases Left(s, start), 2
  {
    var name, pos := ReadToken(s, start);
    if name.None? {
      return Failed;
    }
    if pos >= |s| || s[pos] != '(' {
      return Done(Leaf(name.value), pos);
    }
    r := ReadArgs(HeadOf(name.value), name.value, s, pos + 1);
  }

  method ReadArgs(h: Head, name: string, s: string, p: nat) returns (r: Parsed<Type>)
    requires p <= |s|
    ensures r == ParseArgs(h, name, s, p)
    decreases Left(s, p), 3
  {
    hide ParseType, ParseMembers, ParseListed, DecimalArgs, SizeArg, Skip, TokenEnd;
    match h
    case HDecimal => r := ReadDecimal(s, p);
    case HUnknown =>
      var tname, q := ReadToken(s, p);
      r := Done(Unknown(tname.value), q + 1);
    case HList =>
      var inner := ParseFlatType(s, p);
      r := if inner.Failed? then Failed else Done(List(inner.value), inner.next + 1);
    case HArray =>
      var inner := ParseFlatType(s, p);
      r := Failed;
      if inner.Done? {
        r := ReadSize(inner.value, s, inner.next + 1);
      }
    case HMap =>
      var key := ParseFlatType(s, p);
      if key.Failed? {
        return Failed;
      }
      var val := ParseFlatType(s, key.next + 1);
      r := if val.Failed? then Failed else Done(Map(key.value, val.value), val.next + 1);
    case HStruct =>
      var sname, q := ReadToken(s, p);
      var fs := ReadMembers(s, q, []);
      r := if fs.Failed? then Failed else Done(Struct(sname.value, fs.value), Close(s, fs.next));
    case HUnion =>
      var fs := ReadListed(s, p);
      r := if fs.Failed? then Failed else Done(Union(fs.value), Close(s, fs.next));
    case HOther =>
      var q := SkipArgs(s, p);
      r := Done(Unknown(name), q);
  }

  method ReadDecimal(s: string, p: nat) returns (r: Parsed<Type>)
    requires p <= |s|
    ensures r == DecimalArgs(s, p)
  {
    var w, q := ReadToken(s, p);
    var sc, q' := ReadToken(s, q + 1);
    r := if sc.None? then Failed else DecimalAt(w.value, sc.value, q' + 1);
  }

  method ReadSize(inner: Type, s: string, p: nat) returns (r: Parsed<Type>)
    ensures r == SizeArg(inner, s, p)
  {
    var size, q := ReadToken(s, p);
    r := if size.None? then Failed else ArrayAt(inner, size.value, q + 1);
  }

  method ReadMember(s: string, p: nat) returns (r: Parsed<Field>)
    requires p <= |s|
    ensures r == ParseMember(s, p)
    decreases Left(s, p), 0
  {
    var fname, q := ReadToken(s, p);
    var t := ParseFlatType(s, q + 1);
    r := if t.Failed? then Failed else Done(Field(fname.value, t.value), t.next);
  }

  /** `first` followed by what a member parse gives. */
  function Onto(first: seq<Field>, r: Parsed<seq<Field>>): Parsed<seq<Field>> {
    if r.Failed? then Failed else Done(first + r.value, r.next)
  }

  method ReadMembers(s: string, start: nat, first: seq<Field>) returns (r: Parsed<seq<Field>>)
    ensures r == Onto(first, ParseMembers(s, start))
    ensures first == [] ==> r == ParseMembers(s, start)
    decreases Left(s, start), 1
  {
    OntoNone(ParseMembers(s, start));
    var fields, pos := first, start;
    while pos < |s| && s[pos] == ','
      invariant pos >= start
      invariant Onto(fields, ParseMembers(s, pos)) == Onto(first, ParseMembers(s, start))
      decreases Left(s, pos)
    {
      var f := ReadMember(s, pos + 1);
      if f.Failed? {
        return Failed;
      }
      OntoStep(fields, f.value, ParseMembers(s, f.next));
      fields, pos := fields + [f.value], f.next;
    }
    assert fields + [] == fields;
    r := Done(fields, pos);
  }

  /** The members of a union: the first one has no comma before it. */
  method ReadListed(s: string, p: nat) returns (r: Parsed<seq<Field>>)
    requires p <= |s|
    ensures r == ParseListed(s, p)
    decreases Left(s, p), 2
  {
    if p < |s| && s[p] != ')' {
      var f := ReadMember(s, p);
      if f.Failed? {
        return Failed;
      }
      r := ReadMembers(s, f.next, [f.value]);
    } else {
      r := ReadMembers(s, p, []);
    }
  }

  lemma OntoStep(fields: seq<Field>, f: Field, rest: Parsed<seq<Field>>)
    ensures Onto(fields + [f], rest) == Onto(fields, Onto([f], rest))
  {
    if rest.Done? {
      assert fields + [f] + rest.value == fields + ([f] + rest.value);
    }
  }

  lemma OntoNone(rest: Parsed<seq<Field>>)
    ensures Onto([], rest) == rest
  {
    if rest.Done? {
      assert [] + rest.value == rest.value;
    }
  }
}
