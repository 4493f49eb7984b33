/**
 Column types and the text the catalog stores for them.
 */
module TypeSpec {
  import opened Decimals
  import opened Tokens
  import opened TypeNames

  /**
   A column type.  `Unknown` carries the name of a type still to be resolved, `Bare` is the
   unknown type without a name, `Other` any type the catalog has no text for.
   */
  datatype Type =
    | Scalar(kind: Kind)
    | Decimal(width: nat, scale: nat)
    | Unknown(name: string)
    | Bare
    | List(elem: Type)
    | Array(elem: Type, size: nat)
    | Map(key: Type, value: Type)
    | Struct(name: string, fields: seq<Field>)
    | Union(fields: seq<Field>)
    | Variant
    | Enum(name: string, entries: seq<Entry>)
    | Other(code: nat)

  datatype Field = Field(name: string, ty: Type)

  datatype Entry = Entry(tag: string, number: int)

  const ENUM_CODE: nat := 104
  const MAX_WIDTH: nat := 38
  const INT_MIN: int := -0x8000_0000
  const INT_MAX: nat := 0x7FFF_FFFF
  const ULLONG_MAX: nat := 0xFFFF_FFFF_FFFF_FFFF

  /** Every unknown type inside has a name, which writing it needs. */
  predicate Named(t: Type) {
    match t
    case Bare => false
    case List(e) => Named(e)
    case Array(e, _) => Named(e)
    case Map(k, v) => Named(k) && Named(v)
    case Struct(_, fs) => AllNamed(fs)
    case Union(fs) => AllNamed(fs)
    case _ => true
  }

  predicate AllNamed(fs: seq<Field>) {
    fs == [] || (Named(fs[0].ty) && AllNamed(fs[1..]))
  }

  // ------------------------------------------------------------ writing

  function Call(name: string, args: string): string {
    name + "(" + args + ")"
  }

  function Nested(t: Type): string
    requires Named(t)
  {
    match t
    case Scalar(k) => NameOf(k)
    case Decimal(w, s) => Call("numeric", Digits(w) + "," + Digits(s))
    case Unknown(name) => Call("UNKNOWN", name)
    case List(e) => Call("LIST", Nested(e))
    case Array(e, n) => Call("ARRAY", Nested(e) + "," + Digits(n))
    case Map(k, v) => Call("MAP", Nested(k) + "," + Nested(v))
    case Struct(name, fs) => Call("STRUCT", name + Members(fs))
    case Union(fs) => Call("UNION", Listed(fs))
    case Variant => "VARIANT"
    case Enum(_, _) => Call("UNKNOWN", Digits(ENUM_CODE))
    case Other(code) => Call("UNKNOWN", Digits(code))
  }

  function Member(f: Field): string
    requires Named(f.ty)
  {
    f.name + ":" + Nested(f.ty)
  }

  function Members(fs: seq<Field>): string
    requires AllNamed(fs)
  {
    if fs == [] then [] else "," + Member(fs[0]) + Members(fs[1..])
  }

  /** The members with commas between them only. */
  function Listed(fs: seq<Field>): string
    requires AllNamed(fs)
  {
    if fs == [] then [] else Member(fs[0]) + Members(fs[1..])
  }

  function EntryText(e: Entry): string {
    e.tag + "=" + ToText(e.number)
  }

  function EntryTexts(es: seq<Entry>): seq<string> {
    seq(|es|, i requires 0 <= i < |es| => EntryText(es[i]))
  }

  const ENUM_PREFIX: string := "ENUM:"

  /** The stored text; a top-level scalar needs none. */
  function Spec(t: Type): string
    requires Named(t)
  {
    match t
    case Scalar(_) => []
    case Enum(name, es) => ENUM_PREFIX + name + ":" + Join(EntryTexts(es), ',')
    case _ => Nested(t)
  }

  // ------------------------------------------------------------ the writing loops

  method EncodeNested(t: Type) returns (s: string)
    requires Named(t)
    ensures s == Nested(t)
    decreases t
  {
    match t
    case Scalar(k) => s := NameOf(k);
    case Decimal(w, sc) => s := "numeric" + "(" + (Digits(w) + "," + Digits(sc)) + ")";
    case Unknown(name) => s := "UNKNOWN" + "(" + name + ")";
    case List(e) =>
      var inner := EncodeNested(e);
      s := "LIST" + "(" + inner + ")";
    case Array(e, n) =>
      var inner := EncodeNested(e);
      s := "ARRAY" + "(" + (inner + "," + Digits(n)) + ")";
    case Map(k, v) =>
      var key := EncodeNested(k);
      var value := EncodeNested(v);
      s := "MAP" + "(" + (key + "," + value) + ")";
    case Struct(name, fs) =>
      var members := EncodeMembers(fs, false);
      s := "STRUCT" + "(" + (name + members) + ")";
    case Union(fs) =>
      var members := EncodeMembers(fs, true);
      s := "UNION" + "(" + members + ")";
    case Variant => s := "VARIANT";
    case Enum(_, _) => s := "UNKNOWN" + "(" + Digits(ENUM_CODE) + ")";
    case Other(code) => s := "UNKNOWN" + "(" + Digits(code) + ")";
  }

  lemma {:induction false} NamedAt(fs: seq<Field>, i: nat)
    requires AllNamed(fs) && i < |fs|
    ensures Named(fs[i].ty) && AllNamed(fs[i..]) && AllNamed(fs[i + 1..])
    ensures Members(fs[i..]) == "," + Member(fs[i]) + Members(fs[i + 1..])
  {
    if i == 0 {
      assert fs[0..] == fs;
    } else {
      NamedAt(fs[1..], i - 1);
      assert fs[1..][i - 1..] == fs[i..] && fs[1..][i..] == fs[i + 1..];
    }
  }

  /** The member loop; a union leaves out the comma before its first member. */
  method EncodeMembers(fs: seq<Field>, union: bool) returns (s: string)
    requires AllNamed(fs)
    ensures s == if union then Listed(fs) else Members(fs)
    decreases fs
  {
    s := [];
    var i := 0;
    while i < |fs|
      invariant 0 <= i <= |fs| && AllNamed(fs[i..])
      invariant i == 0 ==> s == []
      invariant !union ==> s + Members(fs[i..]) == Members(fs)
      invariant union && i > 0 ==> s + Members(fs[i..]) == Listed(fs)
    {
      NamedAt(fs, i);
      var ty := EncodeNested(fs[i].ty);
      var member := fs[i].name + ":" + ty;
      Comma(s, member, Members(fs[i + 1..]));
      if i > 0 || !union {
        s := s + ",";
      }
      s := s + member;
      i := i + 1;
    }
  }

  lemma Comma(a: string, b: string, c: string)
    ensures a + ("," + b + c) == a + "," + b + c
  {
  }
}
