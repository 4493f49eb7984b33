/**
 What stored texts decode to beyond the types that survive: types that lose parts on the way, numbers
 out of range, names that are no keywords, and enums with odd entries.
 */
module TypeTexts {
  import opened Decimals
  import opened Tokens
  import opened TypeNames
  import opened TypeSpec
  import opened TypeParser
  import opened TypeRoundTrip
  import opened TypeStore

  // ------------------------------------------------------------ the documented forms

  lemma UnknownText(name: string)
    ensures Spec(Unknown(name)) == "UNKNOWN(" + name + ")" && Spec(Variant) == "VARIANT"
  {
    OneForm("UNKNOWN", "UNKNOWN(", name);
  }

  lemma DecimalText(w: nat, sc: nat)
    ensures Spec(Decimal(w, sc)) == "numeric(" + Digits(w) + "," + Digits(sc) + ")"
  {
    assert Spec(Decimal(w, sc)) == Call("numeric", Digits(w) + "," + Digits(sc));
    hide Digits, Nested, Spec, Call;
    PairForm("numeric", "numeric(", Digits(w), Digits(sc));
  }

  lemma ListText(e: Type)
    requires Named(e)
    ensures Spec(List(e)) == "LIST(" + Nested(e) + ")"
  {
    OneForm("LIST", "LIST(", Nested(e));
  }

  lemma ArrayText(e: Type, n: nat)
    requires Named(e)
    ensures Spec(Array(e, n)) == "ARRAY(" + Nested(e) + "," + Digits(n) + ")"
  {
    assert Spec(Array(e, n)) == Call("ARRAY", Nested(e) + "," + Digits(n));
    hide Digits, Nested, Named, Spec, Call;
    PairForm("ARRAY", "ARRAY(", Nested(e), Digits(n));
  }

  lemma MapText(k: Type, v: Type)
    requires Named(k) && Named(v)
    ensures Spec(Map(k, v)) == "MAP(" + Nested(k) + "," + Nested(v) + ")"
  {
    assert Spec(Map(k, v)) == Call("MAP", Nested(k) + "," + Nested(v));
    hide Nested, Named, Spec, Call;
    PairForm("MAP", "MAP(", Nested(k), Nested(v));
  }

  lemma OneForm(name: string, open: string, a: string)
    requires open == name + "("
    ensures Call(name, a) == open + a + ")"
  {
  }

  lemma PairForm(name: string, open: string, a: string, b: string)
    requires open == name + "("
    ensures Call(name, a + "," + b) == open + a + "," + b + ")"
  {
    StringConcat(open, a, "," + b);
    StringConcat(open + a, ",", b);
    StringConcat(a, ",", b);
  }

  /** The members of a struct or union, each with its name and type. */
  function MemberTexts(fs: seq<Field>): seq<string>
    requires AllNamed(fs)
  {
    if fs == [] then [] else [fs[0].name + ":" + Nested(fs[0].ty)] + MemberTexts(fs[1..])
  }

  lemma {:induction false} JoinOnto(first: string, toks: seq<string>, c: char)
    requires toks != []
    ensures Join([first] + toks, c) == first + [c] + Join(toks, c)
    decreases toks
  {
    var all, n := [first] + toks, |toks| - 1;
    assert all[..|all| - 1] == [first] + toks[..n];
    if n == 0 {
      assert toks[..0] == [] && [first] + [] == [first];
      assert Join(all, c) == first + [c] + toks[0];
    } else {
      JoinOnto(first, toks[..n], c);
      StringConcat(first + [c], Join(toks[..n], c), [c] + toks[n]);
      assert Join(toks, c) == Join(toks[..n], c) + ([c] + toks[n]);
      assert Join(all, c) == Join([first] + toks[..n], c) + ([c] + toks[n]);
    }
  }

  lemma StringConcat(a: string, b: string, c: string)
    ensures a + (b + c) == a + b + c
  {
  }

  lemma {:induction false} MembersJoin(first: string, fs: seq<Field>)
    requires AllNamed(fs)
    ensures first + Members(fs) == Join([first] + MemberTexts(fs), ',')
    decreases fs
  {
    hide Nested, Join;
    if fs == [] {
      JoinOne(first);
      assert [first] + [] == [first] && first + [] == first;
    } else {
      var m := fs[0].name + ":" + Nested(fs[0].ty);
      MembersJoin(m, fs[1..]);
      JoinOnto(first, MemberTexts(fs), ',');
      assert Members(fs) == "," + m + Members(fs[1..]);
      StringConcat(",", m, Members(fs[1..]));
      StringConcat(first, ",", m + Members(fs[1..]));
    }
  }

  lemma JoinOne(tok: string)
    ensures Join([tok], ',') == tok
  {
  }

  /** A struct lists its name and its members, a union its members, with commas between. */
  lemma MemberForms(name: string, fs: seq<Field>)
    requires AllNamed(fs)
    ensures Spec(Struct(name, fs)) == "STRUCT(" + Join([name] + MemberTexts(fs), ',') + ")"
    ensures Spec(Union(fs)) == "UNION(" + Join(MemberTexts(fs), ',') + ")"
  {
    assert Spec(Struct(name, fs)) == Call("STRUCT", name + Members(fs));
    assert Spec(Union(fs)) == Call("UNION", Listed(fs));
    hide Join, Members, Nested, Spec, Call;
    MembersJoin(name, fs);
    OneForm("STRUCT", "STRUCT(", name + Members(fs));
    OneForm("UNION", "UNION(", Listed(fs));
    if fs != [] {
      var m := fs[0].name + ":" + Nested(fs[0].ty);
      assert Listed(fs) == m + Members(fs[1..]) && MemberTexts(fs) == [m] + MemberTexts(fs[1..]);
      MembersJoin(m, fs[1..]);
    } else {
      NoneJoin();
    }
  }

  lemma NoneJoin()
    ensures Join([], ',') == []
  {
  }

  /** An enum lists its labels and numbers behind its name, with commas between. */
  lemma EnumForm(name: string, es: seq<TypeSpec.Entry>)
    ensures Spec(Enum(name, es)) == "ENUM:" + name + ":" + Join(EntryTexts(es), ',')
    ensures |EntryTexts(es)| == |es|
    ensures forall i | 0 <= i < |es| :: EntryTexts(es)[i] == es[i].tag + "=" + ToText(es[i].number)
  {
    hide ToText, Join;
  }

  // ------------------------------------------------------------ what comes back of a type

  /** The type with everything that has no text of its own replaced by an unknown type that carries the
      code of what was there. */
  function Back(t: Type): Type {
    match t
    case Enum(_, _) => Unknown("104")
    case Other(code) => Unknown(Digits(code))
    case List(e) => List(Back(e))
    case Array(e, n) => Array(Back(e), n)
    case Map(k, v) => Map(Back(k), Back(v))
    case Struct(name, fs) => Struct(name, BackAll(fs))
    case Union(fs) => Union(BackAll(fs))
    case _ => t
  }

  function BackAll(fs: seq<Field>): seq<Field> {
    if fs == [] then [] else [Field(fs[0].name, Back(fs[0].ty))] + BackAll(fs[1..])
  }

  lemma EnumCode()
    ensures Digits(ENUM_CODE) == "104"
  {
    assert Digits(10) == "10" && Digits(104) == Digits(10) + [DigitChar(4)];
  }

  lemma {:induction false} SameText(t: Type)
    requires Named(t)
    ensures Named(Back(t)) && Nested(Back(t)) == Nested(t)
    decreases t, 1
  {
    match t
    case Enum(_, _) => EnumCode();
    case List(e) => SameText(e);
    case Array(e, _) => SameText(e);
    case Map(k, v) =>
      SameText(k);
      SameText(v);
    case Struct(_, fs) => SameTexts(fs);
    case Union(fs) => SameTexts(fs);
    case _ =>
  }

  lemma {:induction false} SameTexts(fs: seq<Field>)
    requires AllNamed(fs)
    ensures AllNamed(BackAll(fs)) && Members(BackAll(fs)) == Members(fs) && Listed(BackAll(fs)) == Listed(fs)
    decreases fs, 0
  {
    if fs != [] {
      SameText(fs[0].ty);
      SameTexts(fs[1..]);
      assert BackAll(fs)[1..] == BackAll(fs[1..]);
    }
  }

  /** Any named type inside a column type is read back up to the parts that have no text; names must be free
      of delimiters and numbers in range. */
  lemma WhatComesBack(t: Type)
    requires Named(t) && !t.Scalar? && !t.Enum? && Clean(Back(t))
    ensures Decode(Spec(t)) == Back(t)
  {
    hide Nested, Clean, Named, Decode;
    SameText(t);
    NestedReadBack(Back(t));
  }

  // ------------------------------------------------------------ names

  /** The words that open a type with arguments. */
  lemma KeywordsIff(name: string, h: Head)
    ensures HeadOf(name) == h <==>
            match h
            case HDecimal => name == "numeric" || name == "DECIMAL"
            case HUnknown => name == "UNKNOWN"
            case HList => name == "LIST"
            case HArray => name == "ARRAY"
            case HMap => name == "MAP"
            case HStruct => name == "STRUCT"
            case HUnion => name == "UNION"
            case HOther => name !in ["numeric", "DECIMAL", "UNKNOWN", "LIST", "ARRAY", "MAP", "STRUCT", "UNION"]
  {
    LookupIsIn(KEYWORDS, 0, name);
    if i :| 0 <= i < |KEYWORDS| && KEYWORDS[i].0 == name {
      Keyword(i);
    }
  }

  lemma NoEnumPrefix(name: string, rest: string)
    requires NoStops(name) && (rest != [] ==> rest[0] == '(')
    ensures !(ENUM_PREFIX <= name + rest)
  {
    var s := name + rest;
    if |name| > 4 {
      assert s[4] == name[4];
    } else if rest != [] {
      assert s[|name|] == '(';
    }
    assert ENUM_PREFIX[4] == ':';
  }

  /** A single word is a scalar type exactly under the names and aliases of that type, the variant type under
      its name, and otherwise an unknown type of that name. */
  lemma WordDecodes(name: string)
    requires NoStops(name) && name != []
    ensures Decode(name) == Variant <==> name == "VARIANT"
    ensures forall k :: Decode(name) == Scalar(k) <==> name != "VARIANT" && (name == NameOf(k) || name in Aliases(k))
    ensures Decode(name).Variant? || Decode(name).Scalar? || Decode(name) == Unknown(name)
  {
    hide KindOf, NameOf, Aliases, ParseArgs, HeadOf;
    NoEnumPrefix(name, []);
    assert name + [] == name;
    TokenEnds(name, 0, |name|);
    assert name[0..|name|] == name;
    forall k ensures KindOf(name) == Some(k) <==> name == NameOf(k) || name in Aliases(k) {
      KindOfIff(name, k);
    }
  }

  // ------------------------------------------------------------ unknown words with arguments

  /** The parentheses of the text close what they open, `depth` more included. */
  predicate Balanced(args: string, depth: nat) {
    if args == [] then depth == 0
    else if args[0] == '(' then Balanced(args[1..], depth + 1)
    else if args[0] == ')' then depth > 0 && Balanced(args[1..], depth - 1)
    else Balanced(args[1..], depth)
  }

  lemma {:induction false} SkipBalanced(s: string, p: nat, args: string, depth: nat)
    requires HasAt(s, p, args) && Balanced(args, depth) && p + |args| < |s| && s[p + |args|] == ')'
    ensures Skip(s, p, depth + 1) == p + |args| + 1
    decreases args
  {
    if args != [] {
      assert s[p + 0] == args[0];
      var rest := args[1..];
      assert HasAt(s, p + 1, rest) by {
        forall i | 0 <= i < |rest| ensures s[p + 1 + i] == rest[i] {
          assert s[p + (i + 1)] == args[i + 1];
        }
      }
      SkipBalanced(s, p + 1, rest,
        if args[0] == '(' then depth + 1 else if args[0] == ')' then depth - 1 else depth);
    }
  }

  /** A word that is no keyword keeps its name, and its arguments are passed over up to the parenthesis that
      closes them. */
  lemma ForeignCall(name: string, args: string, s: string, pos: nat)
    requires NoStops(name) && HeadOf(name) == HOther && Balanced(args, 0) && HasAt(s, pos, Call(name, args))
    ensures ParseType(s, pos) == Done(Unknown(name), pos + |Call(name, args)|)
  {
    hide HeadOf, ParseType, Skip, Balanced;
    OpenCall(s, pos, name, args, HOther);
    SkipBalanced(s, pos + |name| + 1, args, 0);
  }

  lemma ForeignCallDecodes(name: string, args: string)
    requires NoStops(name) && HeadOf(name) == HOther && Balanced(args, 0)
    ensures Decode(Call(name, args)) == Unknown(name)
  {
    hide HeadOf, ParseType, Balanced;
    var s := Call(name, args);
    assert s == name + ("(" + args + ")");
    NoEnumPrefix(name, "(" + args + ")");
    ForeignCall(name, args, s, 0);
  }

  // ------------------------------------------------------------ numbers out of range

  lemma TextHasNoStops(n: int)
    ensures NoStops(ToText(n))
  {
    hide Digits;
  }

  lemma ListOf(inner: string)
    ensures var s := Call("LIST", inner);
      && HasAt(s, 5, inner) && s != [] && !(ENUM_PREFIX <= s)
      && Decode(s) == match ParseType(s, 5) case Failed => Bare case Done(t, _) => List(t)
  {
    hide ParseType, HeadOf, Call;
    var s := Call("LIST", inner);
    Keyword(3);
    OpenCall(s, 0, "LIST", inner, HList);
    ListIsNoEnum(inner);
  }

  lemma ListIsNoEnum(inner: string)
    ensures Call("LIST", inner) != [] && !(ENUM_PREFIX <= Call("LIST", inner))
  {
    assert Call("LIST", inner)[0] == 'L';
    assert ENUM_PREFIX[0] == 'E';
  }

  /** Width and scale pass through eight bits; a width over 38 makes the whole text unreadable, a number
      beyond 32 bits only its type. */
  lemma DecimalTexts(name: string, w: int, sc: int)
    requires name == "numeric" || name == "DECIMAL"
    ensures Decode(Call("LIST", Call(name, ToText(w) + "," + ToText(sc)))) ==
            if !(-0x8000_0000 <= w < 0x8000_0000 && -0x8000_0000 <= sc < 0x8000_0000) then List(Bare)
            else if w % 256 > 38 then Bare
            else List(Decimal(w % 256, sc % 256))
  {
    hide ParseType, HeadOf, ToText, Decode, DecimalAt;
    var inner := Call(name, ToText(w) + "," + ToText(sc));
    var s := Call("LIST", inner);
    ListOf(inner);
    TextHasNoStops(w);
    TextHasNoStops(sc);
    Keyword(if name == "numeric" then 0 else 1);
    DecimalForm(name, ToText(w), ToText(sc), s, 5);
    DecimalOfTexts(w, sc, 5 + |inner|);
  }

  lemma DecimalOfTexts(w: int, sc: int, next: nat)
    ensures DecimalAt(ToText(w), ToText(sc), next) ==
            if !(INT_MIN <= w <= INT_MAX && INT_MIN <= sc <= INT_MAX) then Done(Bare, next)
            else if w % 256 > 38 then Failed
            else Done(Decimal(w % 256, sc % 256), next)
  {
    hide ReadInt, ToText;
    IntReads(w);
    IntReads(sc);
  }

  lemma IntReads(n: int)
    ensures ReadInt(ToText(n), INT_MIN, INT_MAX) == if INT_MIN <= n <= INT_MAX then Some(n) else None
  {
    hide ReadInt, ToText;
    if INT_MIN <= n <= INT_MAX {
      IntAlone(n, INT_MIN, INT_MAX);
    } else {
      IntOutOfRange(n, [], INT_MIN, INT_MAX);
      assert ToText(n) + [] == ToText(n);
    }
  }

  lemma ArrayInside(e: Type, n: nat, s: string, pos: nat)
    requires Named(e) && Clean(e) && HasAt(s, pos, Call("ARRAY", Nested(e) + "," + Digits(n)))
    ensures ParseType(s, pos) == Done(if n <= ULLONG_MAX then Array(e, n) else Bare,
                                      pos + |Call("ARRAY", Nested(e) + "," + Digits(n))|)
  {
    hide ParseType, HeadOf, Digits, ArrayAt, Nested, Clean, Named, Call;
    PairText(s, pos, "ARRAY", Nested(e), Digits(n));
    RoundTrip(e, s, pos + 6);
    DigitsHaveNoStops(n);
    ArrayForm(e, Nested(e), n, Digits(n), s, pos);
    SizeOfText(e, n, pos + |Call("ARRAY", Nested(e) + "," + Digits(n))|);
  }

  /** The size of an array takes 64 bits; a larger one makes its type unreadable. */
  lemma ArrayTexts(e: Type, n: nat)
    requires Named(e) && Clean(e)
    ensures Decode(Call("LIST", Call("ARRAY", Nested(e) + "," + Digits(n)))) ==
            List(if n <= 0xFFFF_FFFF_FFFF_FFFF then Array(e, n) else Bare)
  {
    hide ParseType, Digits, Decode, Nested, Call, Named, Clean;
    var inner := Call("ARRAY", Nested(e) + "," + Digits(n));
    ListOf(inner);
    ArrayInside(e, n, Call("LIST", inner), 5);
  }

  lemma SizeOfText(e: Type, n: nat, next: nat)
    ensures ArrayAt(e, Digits(n), next) == Done(if n <= ULLONG_MAX then Array(e, n) else Bare, next)
  {
    hide ReadNat, Digits;
    if n <= ULLONG_MAX {
      NatAlone(n, ULLONG_MAX);
    } else {
      NatTooBig(n, [], ULLONG_MAX);
      assert Digits(n) + [] == Digits(n);
    }
  }

  // ------------------------------------------------------------ enums

  /** An enum text without a list has no entries. */
  lemma EnumWithoutList(name: string)
    requires Plain(name, ':')
    ensures Decode("ENUM:" + name) == Enum(name, [])
  {
    assert ("ENUM:" + name)[5..] == name;
    FindSkips(name, 0, |name|, ':');
  }

  /** A token without `=` is passed over; any other is a label up to the first `=` and a number behind it. */
  lemma CellIff(tok: string)
    ensures CellOf(tok).Skipped? <==> '=' !in tok
    ensures forall tag: string, num: string | tok == tag + "=" + num && Plain(tag, '=') ::
              CellOf(tok) == match ReadInt(num, -0x8000_0000, 0x7FFF_FFFF) case Some(v) => Got(Entry(tag, v)) case None => Bad
  {
    hide ReadInt;
    FindMisses(tok, 0, '=');
    forall tag: string, num: string | tok == tag + "=" + num && Plain(tag, '=')
      ensures CellOf(tok) == match ReadInt(num, -0x8000_0000, 0x7FFF_FFFF) case Some(v) => Got(Entry(tag, v)) case None => Bad
    {
      FindSkips(tok, 0, |tag|, '=');
      assert tok[|tag| + 1..] == num && tok[..|tag|] == tag;
    }
  }

  /** The entries that tokens hold, in order. */
  function Held(toks: seq<string>): seq<Entry> {
    if toks == [] then []
    else (match CellOf(toks[0]) case Got(e) => [e] case _ => []) + Held(toks[1..])
  }

  lemma {:induction false} HeldOneMore(toks: seq<string>, tok: string)
    ensures Held(toks + [tok]) == Held(toks) + (match CellOf(tok) case Got(e) => [e] case _ => [])
  {
    hide CellOf;
    if toks == [] {
      assert [] + [tok] == [tok] && [tok][1..] == [];
    } else {
      assert (toks + [tok])[1..] == toks[1..] + [tok];
      HeldOneMore(toks[1..], tok);
      EntryConcat(match CellOf(toks[0]) case Got(e) => [e] case _ => [], Held(toks[1..]),
                  match CellOf(tok) case Got(e) => [e] case _ => []);
    }
  }

  lemma EntryConcat(a: seq<Entry>, b: seq<Entry>, c: seq<Entry>)
    ensures a + (b + c) == a + b + c
  {
  }

  /** A list of tokens is refused exactly when one of them has an unreadable number; otherwise its entries are
      those the tokens hold. */
  lemma {:induction false} EntriesIff(toks: seq<string>)
    ensures EntriesOf(toks) == if exists k | 0 <= k < |toks| :: CellOf(toks[k]).Bad? then None else Some(Held(toks))
  {
    hide CellOf;
    if toks != [] {
      var n := |toks| - 1;
      var before := toks[..n];
      EntriesIff(before);
      assert toks == before + [toks[n]];
      HeldOneMore(before, toks[n]);
      if exists k | 0 <= k < |toks| :: CellOf(toks[k]).Bad? {
        var k :| 0 <= k < |toks| && CellOf(toks[k]).Bad?;
        assert k < n ==> before[k] == toks[k];
      } else {
        forall k | 0 <= k < n ensures !CellOf(before[k]).Bad? {
          assert !CellOf(toks[k]).Bad?;
        }
        assert !CellOf(toks[n]).Bad?;
        assert Held(before) + [] == Held(before);
      }
    }
  }

  /** An enum text with a list is an enum with the entries of the list, or unreadable with a bad one. */
  lemma EnumTexts(name: string, list: string)
    requires Plain(name, ':')
    ensures var toks := Split(list, 0, ',');
      Decode("ENUM:" + name + ":" + list) ==
      if exists k | 0 <= k < |toks| :: CellOf(toks[k]).Bad? then Bare else Enum(name, Held(toks))
  {
    hide EntriesOf, Split, CellOf, Held;
    var rest := name + ":" + list;
    var spec := "ENUM:" + name + ":" + list;
    assert spec == "ENUM:" + rest;
    assert spec[5..] == rest;
    FindSkips(rest, 0, |name|, ':');
    assert rest[|name| + 1..] == list && rest[..|name|] == name;
    EntriesIff(Split(list, 0, ','));
  }

  // ------------------------------------------------------------ texts that end early

  lemma OpenDecodes(name: string, inner: string, h: Head)
    requires NoStops(name) && HeadOf(name) == h
    ensures var s := name + "(" + inner;
      && s != [] && HasAt(s, |name| + 1, inner) && |s| == |name| + 1 + |inner|
      && Decode(s) == match ParseArgs(h, name, s, |name| + 1) case Done(t, _) => t case Failed => Bare
  {
    hide ParseArgs, HeadOf, ParseType;
    var s := name + "(" + inner;
    assert s == name + ("(" + inner);
    NoEnumPrefix(name, "(" + inner);
    assert HasAt(s, 0, name) && s[|name|] == '(';
    OpenHead(s, 0, name, h);
  }

  /** A list may lack its closing parenthesis; a map or an array may not lack its second part. */
  lemma MissingParts(e: Type)
    requires Named(e) && Clean(e)
    ensures Decode("LIST(" + Nested(e)) == List(e)
    ensures Decode("MAP(" + Nested(e)) == Bare
    ensures Decode("ARRAY(" + Nested(e)) == Bare
  {
    hide Decode, Nested, Clean, Named;
    OpenList(e, "LIST(" + Nested(e));
    OpenMap(e, "MAP(" + Nested(e));
    OpenArray(e, "ARRAY(" + Nested(e));
  }

  lemma OpenList(e: Type, s: string)
    requires Named(e) && Clean(e) && s == "LIST(" + Nested(e)
    ensures Decode(s) == List(e)
  {
    hide ParseType, HeadOf, Decode, Nested, Clean, Named;
    Keyword(3);
    assert "LIST" + "(" + Nested(e) == s;
    OpenDecodes("LIST", Nested(e), HList);
    RoundTrip(e, s, 5);
  }

  lemma OpenMap(e: Type, s: string)
    requires Named(e) && Clean(e) && s == "MAP(" + Nested(e)
    ensures Decode(s) == Bare
  {
    hide ParseType, HeadOf, Decode, Nested, Clean, Named;
    Keyword(5);
    assert "MAP" + "(" + Nested(e) == s;
    OpenDecodes("MAP", Nested(e), HMap);
    RoundTrip(e, s, 4);
    PastTheEnd(s);
  }

  lemma OpenArray(e: Type, s: string)
    requires Named(e) && Clean(e) && s == "ARRAY(" + Nested(e)
    ensures Decode(s) == Bare
  {
    hide ParseType, HeadOf, Decode, Nested, Clean, Named;
    Keyword(4);
    assert "ARRAY" + "(" + Nested(e) == s;
    OpenDecodes("ARRAY", Nested(e), HArray);
    RoundTrip(e, s, 6);
  }

  lemma PastTheEnd(s: string)
    ensures ParseType(s, |s| + 1) == Failed
  {
  }
}
