/**
 Reading back the text of a nested type: exactly the clean types come back, whatever follows
 their text.
 */
module TypeRoundTrip {
  import opened Decimals
  import opened TypeNames
  import opened TypeSpec
  import opened TypeParser

  /** Names hold none of `( ) , :`, numbers fit, and every part has a text of its own. */
  ghost predicate Clean(t: Type) {
    match t
    case Scalar(_) => true
    case Decimal(w, s) => w <= MAX_WIDTH && s < 256
    case Unknown(name) => NoStops(name)
    case Bare => true
    case List(e) => Clean(e)
    case Array(e, n) => Clean(e) && n <= ULLONG_MAX
    case Map(k, v) => Clean(k) && Clean(v)
    case Struct(name, fs) => NoStops(name) && AllClean(fs)
    case Union(fs) => AllClean(fs)
    case Variant => true
    case Enum(_, _) => false
    case Other(_) => false
  }

  ghost predicate AllClean(fs: seq<Field>) {
    fs == [] || (NoStops(fs[0].name) && Clean(fs[0].ty) && AllClean(fs[1..]))
  }

  // ------------------------------------------------------------ text at a position

  ghost predicate HasAt(s: string, pos: nat, e: string) {
    pos + |e| <= |s| && forall i | 0 <= i < |e| :: s[pos + i] == e[i]
  }

  /** The text ends at `pos` or goes on with a comma or a closing parenthesis. */
  ghost predicate Bounded(s: string, pos: nat) {
    pos <= |s| && (pos < |s| ==> s[pos] == ',' || s[pos] == ')')
  }

  lemma Cut(s: string, pos: nat, a: string, b: string)
    requires HasAt(s, pos, a + b)
    ensures HasAt(s, pos, a) && HasAt(s, pos + |a|, b)
  {
    forall i | 0 <= i < |a| ensures s[pos + i] == a[i] {
      assert (a + b)[i] == a[i];
    }
    forall i | 0 <= i < |b| ensures s[pos + |a| + i] == b[i] {
      assert (a + b)[|a| + i] == b[i];
    }
  }

  /** Cutting around a single separator. */
  lemma CutAt(s: string, pos: nat, a: string, c: char, b: string)
    requires HasAt(s, pos, a + [c] + b)
    ensures HasAt(s, pos, a) && pos + |a| < |s| && s[pos + |a|] == c && HasAt(s, pos + |a| + 1, b)
  {
    Cut(s, pos, a + [c], b);
    Cut(s, pos, a, [c]);
    assert [c][0] == c;
  }

  lemma {:induction false} TokenEnds(s: string, pos: nat, e: nat)
    requires pos <= e <= |s| && (e < |s| ==> IsStop(s[e]))
    requires forall k | pos <= k < e :: !IsStop(s[k])
    ensures TokenEnd(s, pos) == e
    decreases e - pos
  {
    if pos < e {
      TokenEnds(s, pos + 1, e);
    }
  }

  /** A stop-free name followed by a stop is read as one token. */
  lemma TokenAt(s: string, pos: nat, name: string)
    requires NoStops(name) && HasAt(s, pos, name)
    requires pos + |name| < |s| ==> IsStop(s[pos + |name|])
    ensures TokenEnd(s, pos) == pos + |name| && s[pos..pos + |name|] == name
  {
    forall k | pos <= k < pos + |name| ensures !IsStop(s[k]) {
      assert s[k] == name[k - pos];
    }
    TokenEnds(s, pos, pos + |name|);
  }

  lemma DigitsHaveNoStops(n: nat)
    ensures NoStops(Digits(n))
  {
  }

  lemma OpenText(s: string, pos: nat, name: string, args: string)
    requires HasAt(s, pos, Call(name, args))
    ensures HasAt(s, pos, name) && pos + |name| < |s| && s[pos + |name|] == '('
    ensures HasAt(s, pos + |name| + 1, args)
    ensures pos + |name| + 1 + |args| < |s| && s[pos + |name| + 1 + |args|] == ')'
  {
    assert Call(name, args) == name + "(" + (args + ")");
    CutAt(s, pos, name, '(', args + ")");
    assert args + ")" == args + ")" + [];
    CutAt(s, pos + |name| + 1, args, ')', []);
  }

  /** Text of a call with two arguments. */
  lemma PairText(s: string, pos: nat, name: string, a: string, b: string)
    requires HasAt(s, pos, Call(name, a + "," + b))
    ensures var p, q := pos + |name| + 1, pos + |name| + |a| + 2;
            && HasAt(s, pos, name) && q + |b| < |s| && s[p - 1] == '(' && HasAt(s, p, a) && s[q - 1] == ','
            && HasAt(s, q, b) && s[q + |b|] == ')' && pos + |Call(name, a + "," + b)| == q + |b| + 1
  {
    OpenText(s, pos, name, a + "," + b);
    CutAt(s, pos + |name| + 1, a, ',', b);
  }

  /** A keyword and its parenthesis lead to its arguments. */
  lemma OpenHead(s: string, pos: nat, name: string, h: Head)
    requires NoStops(name) && HeadOf(name) == h
    requires HasAt(s, pos, name) && pos + |name| < |s| && s[pos + |name|] == '('
    ensures ParseType(s, pos) == ParseArgs(h, name, s, pos + |name| + 1)
  {
    hide ParseArgs, Leaf, HeadOf;
    TokenAt(s, pos, name);
  }

  lemma OpenCall(s: string, pos: nat, name: string, args: string, h: Head)
    requires NoStops(name) && HeadOf(name) == h && HasAt(s, pos, Call(name, args))
    ensures var p := pos + |name| + 1;
            && p <= |s| && ParseType(s, pos) == ParseArgs(h, name, s, p)
            && HasAt(s, p, args) && p + |args| < |s| && s[p + |args|] == ')'
            && pos + |Call(name, args)| == p + |args| + 1
  {
    hide ParseType, ParseArgs, HeadOf;
    OpenText(s, pos, name, args);
    OpenHead(s, pos, name, h);
  }

  lemma Keyword(i: nat)
    requires i < |KEYWORDS|
    ensures NoStops(KEYWORDS[i].0) && HeadOf(KEYWORDS[i].0) == KEYWORDS[i].1
  {
    LookupFinds(KEYWORDS, 0, i);
  }

  // ------------------------------------------------------------ one lemma per form

  lemma ScalarRoundTrip(k: Kind, s: string, pos: nat)
    requires HasAt(s, pos, NameOf(k)) && Bounded(s, pos + |NameOf(k)|)
    ensures ParseType(s, pos) == Done(Scalar(k), pos + |NameOf(k)|)
  {
    hide ParseArgs, Leaf, HeadOf, NameOf;
    NamesAreTokens(k);
    TokenAt(s, pos, NameOf(k));
    LeafOfName(k);
  }

  lemma LeafOfName(k: Kind)
    ensures Leaf(NameOf(k)) == Scalar(k)
  {
    hide KindOf, NameOf;
    NamesReadBack(k);
    NamesAreTokens(k);
    assert "VARIANT"[0] == 'V';
  }

  lemma VariantRoundTrip(s: string, pos: nat)
    requires HasAt(s, pos, "VARIANT") && Bounded(s, pos + 7)
    ensures ParseType(s, pos) == Done(Variant, pos + 7)
  {
    hide ParseArgs, HeadOf, KindOf;
    TokenAt(s, pos, "VARIANT");
  }

  lemma DecimalForm(name: string, ws: string, scs: string, s: string, pos: nat)
    requires NoStops(name) && HeadOf(name) == HDecimal
    requires NoStops(ws) && NoStops(scs) && HasAt(s, pos, Call(name, ws + "," + scs))
    ensures ParseType(s, pos) == DecimalAt(ws, scs, pos + |Call(name, ws + "," + scs)|)
  {
    hide ParseType, HeadOf, DecimalArgs, DecimalAt;
    PairText(s, pos, name, ws, scs);
    OpenHead(s, pos, name, HDecimal);
    WidthAndScale(s, pos + |name| + 1, ws, scs);
  }

  lemma WidthAndScale(s: string, p: nat, ws: string, scs: string)
    requires NoStops(ws) && NoStops(scs) && HasAt(s, p, ws) && HasAt(s, p + |ws| + 1, scs)
    requires p + |ws| + 1 + |scs| < |s| && s[p + |ws|] == ',' && s[p + |ws| + 1 + |scs|] == ')'
    ensures DecimalArgs(s, p) == DecimalAt(ws, scs, p + |ws| + |scs| + 2)
  {
    hide DecimalAt;
    TokenAt(s, p, ws);
    TokenAt(s, p + |ws| + 1, scs);
  }

  lemma DecimalRoundTrip(w: nat, sc: nat, s: string, pos: nat)
    requires w <= MAX_WIDTH && sc < 256
    requires HasAt(s, pos, Call("numeric", Digits(w) + "," + Digits(sc)))
    ensures ParseType(s, pos) == Done(Decimal(w, sc), pos + |Call("numeric", Digits(w) + "," + Digits(sc))|)
  {
    hide ParseType, DecimalAt, ReadInt, Digits;
    DigitsHaveNoStops(w);
    DigitsHaveNoStops(sc);
    Keyword(0);
    DecimalForm("numeric", Digits(w), Digits(sc), s, pos);
    IntAlone(w, INT_MIN, INT_MAX);
    IntAlone(sc, INT_MIN, INT_MAX);
    DecimalOfValues(Digits(w), Digits(sc), w, sc, pos + |Call("numeric", Digits(w) + "," + Digits(sc))|);
  }

  lemma DecimalOfValues(ws: string, scs: string, w: nat, sc: nat, next: nat)
    requires w <= MAX_WIDTH && sc < 256
    requires ReadInt(ws, INT_MIN, INT_MAX) == Some(w) && ReadInt(scs, INT_MIN, INT_MAX) == Some(sc)
    ensures DecimalAt(ws, scs, next) == Done(Decimal(w, sc), next)
  {
    hide ReadInt;
  }

  lemma UnknownRoundTrip(name: string, s: string, pos: nat)
    requires NoStops(name) && HasAt(s, pos, Call("UNKNOWN", name))
    ensures ParseType(s, pos) == Done(Unknown(name), pos + |Call("UNKNOWN", name)|)
  {
    hide ParseType, HeadOf;
    Keyword(2);
    OpenCall(s, pos, "UNKNOWN", name, HUnknown);
    TokenAt(s, pos + 8, name);
  }

  lemma ListForm(e: Type, es: string, s: string, pos: nat)
    requires HasAt(s, pos, Call("LIST", es))
    ensures HasAt(s, pos + 5, es) && Bounded(s, pos + 5 + |es|)
    ensures ParseType(s, pos + 5) == Done(e, pos + 5 + |es|)
            ==> ParseType(s, pos) == Done(List(e), pos + |Call("LIST", es)|)
  {
    hide ParseType, HeadOf;
    Keyword(3);
    OpenCall(s, pos, "LIST", es, HList);
  }

  lemma ArrayForm(e: Type, es: string, n: nat, ns: string, s: string, pos: nat)
    requires NoStops(ns) && HasAt(s, pos, Call("ARRAY", es + "," + ns))
    requires ParseType(s, pos + 6) == Done(e, pos + 6 + |es|)
    ensures ParseType(s, pos) == ArrayAt(e, ns, pos + |Call("ARRAY", es + "," + ns)|)
  {
    hide ParseType, HeadOf, SizeArg, ArrayAt;
    PairText(s, pos, "ARRAY", es, ns);
    Keyword(4);
    OpenHead(s, pos, "ARRAY", HArray);
    SizeAt(e, s, pos + 7 + |es|, ns);
  }

  lemma SizeAt(e: Type, s: string, p: nat, ns: string)
    requires NoStops(ns) && HasAt(s, p, ns) && p + |ns| < |s| && s[p + |ns|] == ')'
    ensures SizeArg(e, s, p) == ArrayAt(e, ns, p + |ns| + 1)
  {
    hide ArrayAt;
    TokenAt(s, p, ns);
  }

  lemma SizeReadBack(e: Type, n: nat, next: nat)
    requires n <= ULLONG_MAX
    ensures ArrayAt(e, Digits(n), next) == Done(Array(e, n), next) && NoStops(Digits(n))
  {
    hide ReadNat, Digits;
    DigitsHaveNoStops(n);
    NatAlone(n, ULLONG_MAX);
  }

  lemma MapForm(k: Type, ks: string, v: Type, vs: string, s: string, pos: nat)
    requires HasAt(s, pos, Call("MAP", ks + "," + vs))
    requires ParseType(s, pos + 4) == Done(k, pos + 4 + |ks|)
    requires ParseType(s, pos + 5 + |ks|) == Done(v, pos + 5 + |ks| + |vs|)
    ensures ParseType(s, pos) == Done(Map(k, v), pos + |Call("MAP", ks + "," + vs)|)
  {
    hide ParseType, HeadOf;
    PairText(s, pos, "MAP", ks, vs);
    Keyword(5);
    OpenHead(s, pos, "MAP", HMap);
  }

  lemma StructForm(name: string, fs: seq<Field>, ms: string, s: string, pos: nat)
    requires NoStops(name) && HasAt(s, pos, Call("STRUCT", name + ms)) && (ms != [] ==> ms[0] == ',')
    ensures var p := pos + 7 + |name|;
            && HasAt(s, p, ms) && p + |ms| < |s| && s[p + |ms|] == ')'
            && (ParseMembers(s, p) == Done(fs, p + |ms|)
                ==> ParseType(s, pos) == Done(Struct(name, fs), pos + |Call("STRUCT", name + ms)|))
  {
    hide ParseType, HeadOf, ParseMembers;
    Keyword(6);
    OpenCall(s, pos, "STRUCT", name + ms, HStruct);
    Cut(s, pos + 7, name, ms);
    assert ms != [] ==> s[pos + 7 + |name|] == ms[0];
    TokenAt(s, pos + 7, name);
  }

  lemma UnionForm(fs: seq<Field>, ms: string, s: string, pos: nat)
    requires HasAt(s, pos, Call("UNION", ms))
    ensures var p := pos + 6;
            && HasAt(s, p, ms) && p + |ms| < |s| && s[p + |ms|] == ')'
            && (ParseListed(s, p) == Done(fs, p + |ms|)
                ==> ParseType(s, pos) == Done(Union(fs), pos + |Call("UNION", ms)|))
  {
    hide ParseType, HeadOf, ParseListed;
    Keyword(7);
    OpenCall(s, pos, "UNION", ms, HUnion);
  }

  // ------------------------------------------------------------ the induction

  /**
   A clean type, written at `pos` of any text and followed by the end, a comma or a closing
   parenthesis, is read back whole, and the reader stops right after it.
   */
  lemma {:induction false} RoundTrip(t: Type, s: string, pos: nat)
    requires Named(t) && Clean(t)
    requires HasAt(s, pos, Nested(t)) && Bounded(s, pos + |Nested(t)|)
    ensures ParseType(s, pos) == Done(t, pos + |Nested(t)|)
    decreases t, 1
  {
    hide ParseType, NameOf, Digits, Members, Listed;
    match t
    case Scalar(k) => ScalarRoundTrip(k, s, pos);
    case Variant => VariantRoundTrip(s, pos);
    case Decimal(w, sc) => DecimalRoundTrip(w, sc, s, pos);
    case Unknown(name) => UnknownRoundTrip(name, s, pos);
    case List(_) => ListRoundTrip(t, s, pos);
    case Array(_, _) => ArrayRoundTrip(t, s, pos);
    case Map(_, _) => MapRoundTrip(t, s, pos);
    case Struct(_, _) => StructRoundTrip(t, s, pos);
    case Union(_) => UnionRoundTrip(t, s, pos);
  }

  lemma ListRoundTrip(t: Type, s: string, pos: nat)
    requires t.List? && Named(t) && Clean(t) && HasAt(s, pos, Nested(t))
    ensures ParseType(s, pos) == Done(t, pos + |Nested(t)|)
    decreases t, 0
  {
    hide ParseType;
    ListForm(t.elem, Nested(t.elem), s, pos);
    RoundTrip(t.elem, s, pos + 5);
  }

  lemma ArrayRoundTrip(t: Type, s: string, pos: nat)
    requires t.Array? && Named(t) && Clean(t) && HasAt(s, pos, Nested(t))
    ensures ParseType(s, pos) == Done(t, pos + |Nested(t)|)
    decreases t, 0
  {
    hide ParseType, ArrayAt, Digits;
    SizeReadBack(t.elem, t.size, pos + |Nested(t)|);
    PairText(s, pos, "ARRAY", Nested(t.elem), Digits(t.size));
    RoundTrip(t.elem, s, pos + 6);
    ArrayForm(t.elem, Nested(t.elem), t.size, Digits(t.size), s, pos);
  }

  lemma MapRoundTrip(t: Type, s: string, pos: nat)
    requires t.Map? && Named(t) && Clean(t) && HasAt(s, pos, Nested(t))
    ensures ParseType(s, pos) == Done(t, pos + |Nested(t)|)
    decreases t, 0
  {
    hide ParseType;
    PairText(s, pos, "MAP", Nested(t.key), Nested(t.value));
    RoundTrip(t.key, s, pos + 4);
    RoundTrip(t.value, s, pos + 5 + |Nested(t.key)|);
    MapForm(t.key, Nested(t.key), t.value, Nested(t.value), s, pos);
  }

  lemma StructRoundTrip(t: Type, s: string, pos: nat)
    requires t.Struct? && Named(t) && Clean(t) && HasAt(s, pos, Nested(t))
    ensures ParseType(s, pos) == Done(t, pos + |Nested(t)|)
    decreases t, 0
  {
    hide ParseType, ParseMembers;
    StructForm(t.name, t.fields, Members(t.fields), s, pos);
    MembersRoundTrip(t.fields, s, pos + 7 + |t.name|);
  }

  lemma UnionRoundTrip(t: Type, s: string, pos: nat)
    requires t.Union? && Named(t) && Clean(t) && HasAt(s, pos, Nested(t))
    ensures ParseType(s, pos) == Done(t, pos + |Nested(t)|)
    decreases t, 0
  {
    hide ParseType, ParseListed, Listed;
    UnionForm(t.fields, Listed(t.fields), s, pos);
    ListedRoundTrip(t.fields, s, pos + 6);
  }

  lemma {:induction false} MemberRoundTrip(f: Field, s: string, pos: nat)
    requires Named(f.ty) && NoStops(f.name) && Clean(f.ty)
    requires HasAt(s, pos, Member(f)) && Bounded(s, pos + |Member(f)|)
    ensures ParseMember(s, pos) == Done(f, pos + |Member(f)|)
    decreases f
  {
    hide ParseType, Nested;
    CutAt(s, pos, f.name, ':', Nested(f.ty));
    TokenAt(s, pos, f.name);
    RoundTrip(f.ty, s, pos + |f.name| + 1);
  }

  /** What a list of members starts with, when its text is followed by a parenthesis. */
  lemma MembersStart(fs: seq<Field>, s: string, pos: nat)
    requires AllNamed(fs) && HasAt(s, pos, Members(fs))
    requires pos + |Members(fs)| < |s| && s[pos + |Members(fs)|] == ')'
    ensures pos < |s| && s[pos] == if fs == [] then ')' else ','
  {
    if fs != [] {
      assert Members(fs) == [] + [','] + (Member(fs[0]) + Members(fs[1..]));
      CutAt(s, pos, [], ',', Member(fs[0]) + Members(fs[1..]));
    }
  }

  lemma {:induction false} MembersRoundTrip(fs: seq<Field>, s: string, pos: nat)
    requires AllNamed(fs) && AllClean(fs) && HasAt(s, pos, Members(fs))
    requires pos + |Members(fs)| < |s| && s[pos + |Members(fs)|] == ')'
    ensures pos < |s| && (s[pos] == ',' || s[pos] == ')')
    ensures ParseMembers(s, pos) == Done(fs, pos + |Members(fs)|)
    decreases fs, 0
  {
    hide ParseMember, Member;
    MembersStart(fs, s, pos);
    if fs != [] {
      assert Members(fs) == "," + (Member(fs[0]) + Members(fs[1..]));
      Cut(s, pos, ",", Member(fs[0]) + Members(fs[1..]));
      Cut(s, pos + 1, Member(fs[0]), Members(fs[1..]));
      MembersRoundTrip(fs[1..], s, pos + 1 + |Member(fs[0])|);
      MemberRoundTrip(fs[0], s, pos + 1);
      assert fs == [fs[0]] + fs[1..];
    }
  }

  lemma {:induction false} ListedRoundTrip(fs: seq<Field>, s: string, pos: nat)
    requires AllNamed(fs) && AllClean(fs) && HasAt(s, pos, Listed(fs))
    requires pos + |Listed(fs)| < |s| && s[pos + |Listed(fs)|] == ')'
    ensures ParseListed(s, pos) == Done(fs, pos + |Listed(fs)|)
    decreases fs, 1
  {
    hide ParseMember, Member;
    if fs == [] {
      assert Members(fs) == [];
      MembersRoundTrip(fs, s, pos);
    } else {
      Cut(s, pos, Member(fs[0]), Members(fs[1..]));
      MembersRoundTrip(fs[1..], s, pos + |Member(fs[0])|);
      MemberRoundTrip(fs[0], s, pos);
      FirstIsNotClose(fs[0], s, pos);
      assert fs == [fs[0]] + fs[1..];
    }
  }

  /** A member does not start with a closing parenthesis. */
  lemma FirstIsNotClose(f: Field, s: string, pos: nat)
    requires Named(f.ty) && NoStops(f.name) && HasAt(s, pos, Member(f))
    ensures pos < |s| && s[pos] != ')'
  {
    hide Nested;
    CutAt(s, pos, f.name, ':', Nested(f.ty));
    if f.name != [] {
      assert s[pos] == f.name[0];
    }
  }
}
