/**
 The stored text of a column type as a whole: the nested form, and the flat form of enums.
 Decoding accepts every text; a type survives being stored exactly when it is storable.
 */
module TypeStore {
  import opened Decimals
  import opened Tokens
  import opened TypeNames
  import opened TypeSpec
  import opened TypeParser
  import opened TypeRoundTrip

  // ------------------------------------------------------------ specification

  datatype Cell = Skipped | Bad | Got(entry: Entry)

  /** One `label=number` token; a token without `=` is passed over. */
  function CellOf(tok: string): Cell {
    var eq := Find(tok, 0, '=');
    if eq == |tok| then Skipped
    else match ReadInt(tok[eq + 1..], INT_MIN, INT_MAX)
      case Some(v) => Got(Entry(tok[..eq], v))
      case None => Bad
  }

  /** The entries of a list of tokens, unless one holds no readable number. */
  function EntriesOf(toks: seq<string>): Option<seq<Entry>> {
    if toks == [] then Some([])
    else match EntriesOf(toks[..|toks| - 1])
      case None => None
      case Some(es) => AddCell(es, CellOf(toks[|toks| - 1]))
  }

  function AddCell(es: seq<Entry>, c: Cell): Option<seq<Entry>> {
    match c
    case Skipped => Some(es)
    case Bad => None
    case Got(e) => Some(es + [e])
  }

  /** What follows the prefix of an enum text. */
  function EnumOf(rest: string): Type {
    var colon := Find(rest, 0, ':');
    if colon == |rest| then Enum(rest, [])
    else match EntriesOf(Split(rest[colon + 1..], 0, ','))
      case Some(es) => Enum(rest[..colon], es)
      case None => Bare
  }

  function Decode(spec: string): Type {
    if spec == [] then Bare
    else if ENUM_PREFIX <= spec then EnumOf(spec[5..])
    else match ParseType(spec, 0)
      case Done(t, _) => t
      case Failed => Bare
  }

  // ------------------------------------------------------------ the decoder

  /** The loop is at `i`, before token `k`, with the entries of the tokens before it. */
  ghost predicate ReadSoFar(list: string, i: nat, all: seq<string>, k: nat, entries: seq<Entry>) {
    && i <= |list| && k <= |all|
    && Split(list, i, ',') == all[k..] && EntriesOf(all[..k]) == Some(entries)
  }

  lemma ReadNothing(list: string)
    ensures ReadSoFar(list, 0, Split(list, 0, ','), 0, [])
  {
    NoEntries(Split(list, 0, ','));
  }

  lemma ReadAll(list: string, all: seq<string>, k: nat, entries: seq<Entry>)
    requires ReadSoFar(list, |list|, all, k, entries)
    ensures EntriesOf(all) == Some(entries)
  {
    NoTokens(list, ',');
    assert all[..k] == all;
  }

  /** One turn of the loop. */
  lemma ReadOne(list: string, i: nat, all: seq<string>, k: nat, entries: seq<Entry>)
    requires ReadSoFar(list, i, all, k, entries) && i < |list|
    ensures var j := Find(list, i, ',');
      var next := if j == |list| then j else j + 1;
      match CellOf(list[i..j])
      case Bad => EntriesOf(all) == None
      case Skipped => ReadSoFar(list, next, all, k + 1, entries)
      case Got(e) => ReadSoFar(list, next, all, k + 1, entries + [e])
  {
    hide CellOf, EntriesOf, Split;
    TakeToken(list, i, ',', all, k);
    EntriesTake(all, k);
    NoTokens(list, ',');
    if CellOf(all[k]).Bad? {
      EntriesStayBad(all, k + 1);
    }
  }

  method DecodeEntries(list: string) returns (es: Option<seq<Entry>>)
    ensures es == EntriesOf(Split(list, 0, ','))
  {
    hide CellOf, Split, EntriesOf, ReadSoFar;
    var entries: seq<Entry> := [];
    ghost var all, k := Split(list, 0, ','), 0;
    ReadNothing(list);
    var i := 0;
    while i < |list|
      invariant 0 <= i <= |list| && ReadSoFar(list, i, all, k, entries)
      decreases |list| - i
    {
      ReadOne(list, i, all, k, entries);
      var j := Find(list, i, ',');
      match CellOf(list[i..j]) {
        case Bad => return None;
        case Skipped =>
        case Got(e) => entries := entries + [e];
      }
      k := k + 1;
      i := if j == |list| then j else j + 1;
    }
    ReadAll(list, all, k, entries);
    es := Some(entries);
  }

  lemma NoEntries(toks: seq<string>)
    ensures EntriesOf(toks[..0]) == Some([])
  {
  }

  lemma EntriesTake(toks: seq<string>, k: nat)
    requires k < |toks|
    ensures EntriesOf(toks[..k + 1]) == match EntriesOf(toks[..k])
                                        case None => None
                                        case Some(es) => AddCell(es, CellOf(toks[k]))
  {
    assert toks[..k + 1][..k] == toks[..k];
  }

  lemma {:induction false} EntriesStayBad(toks: seq<string>, k: nat)
    requires k <= |toks| && EntriesOf(toks[..k]) == None
    ensures EntriesOf(toks) == None
    decreases |toks| - k
  {
    if k == |toks| {
      assert toks[..k] == toks;
    } else {
      EntriesTake(toks, k);
      EntriesStayBad(toks, k + 1);
    }
  }

  /** Decoding ends with a type for every text. */
  method DecodeTypeSpec(spec: string) returns (t: Type)
    ensures t == Decode(spec)
  {
    hide ParseType, EntriesOf;
    if spec == [] {
      return Bare;
    }
    if ENUM_PREFIX <= spec {
      var rest := spec[5..];
      var colon := Find(rest, 0, ':');
      if colon == |rest| {
        return Enum(rest, []);
      }
      var es := DecodeEntries(rest[colon + 1..]);
      return if es.Some? then Enum(rest[..colon], es.value) else Bare;
    }
    var r := ParseFlatType(spec, 0);
    t := if r.Done? then r.value else Bare;
  }

  // ------------------------------------------------------------ what decoding can give

  ghost predicate GoodEntry(e: Entry) {
    Plain(e.tag, ',') && Plain(e.tag, '=') && INT_MIN <= e.number <= INT_MAX
  }

  ghost predicate GoodEntries(es: seq<Entry>) {
    forall i | 0 <= i < |es| :: GoodEntry(es[i])
  }

  /** The types whose stored text brings them back. */
  ghost predicate Storable(t: Type) {
    match t
    case Scalar(_) => false
    case Enum(name, es) => Plain(name, ':') && GoodEntries(es)
    case _ => Clean(t)
  }

  lemma {:induction false} TokenHasNoStops(s: string, pos: nat)
    requires pos <= |s|
    ensures NoStops(s[pos..TokenEnd(s, pos)])
    decreases |s| - pos
  {
    if pos < |s| && !IsStop(s[pos]) {
      TokenHasNoStops(s, pos + 1);
      var e := TokenEnd(s, pos);
      forall i | 0 <= i < e - pos ensures !IsStop(s[pos..e][i]) {
        if i > 0 {
          assert s[pos..e][i] == s[pos + 1..e][i - 1];
        }
      }
    }
  }

  lemma ReadsAreInRange(s: string, min: int, max: nat)
    requires min <= 0
    ensures ReadInt(s, min, max).Some? ==> min <= ReadInt(s, min, max).value <= max
  {
    hide Lead, ValueOf;
  }

  /** Whatever is read is clean. */
  lemma {:induction false} ParsedIsClean(s: string, pos: nat)
    ensures ParseType(s, pos).Done? ==> Clean(ParseType(s, pos).value)
    decreases Left(s, pos), 2
  {
    hide ParseArgs, HeadOf, KindOf;
    if pos <= |s| {
      TokenHasNoStops(s, pos);
      var e := TokenEnd(s, pos);
      if e < |s| && s[e] == '(' {
        ArgsAreClean(HeadOf(s[pos..e]), s[pos..e], s, e + 1);
      }
    }
  }

  lemma {:induction false} ArgsAreClean(h: Head, name: string, s: string, p: nat)
    requires p <= |s| && NoStops(name)
    ensures ParseArgs(h, name, s, p).Done? ==> Clean(ParseArgs(h, name, s, p).value)
    decreases Left(s, p), 3
  {
    hide ParseType, ParseMembers, ParseListed, Skip, TokenEnd, ReadInt, ReadNat;
    match h
    case HDecimal =>
    case HUnknown => TokenHasNoStops(s, p);
    case HList => ParsedIsClean(s, p);
    case HArray =>
      ParsedIsClean(s, p);
      if ParseType(s, p).Done? {
        SizesAreClean(ParseType(s, p).value, s, ParseType(s, p).next + 1);
      }
    case HMap =>
      ParsedIsClean(s, p);
      if ParseType(s, p).Done? {
        ParsedIsClean(s, ParseType(s, p).next + 1);
      }
    case HStruct =>
      TokenHasNoStops(s, p);
      MembersAreClean(s, TokenEnd(s, p));
    case HUnion => ListedAreClean(s, p);
    case HOther =>
  }

  lemma SizesAreClean(e: Type, s: string, p: nat)
    requires Clean(e)
    ensures SizeArg(e, s, p).Done? ==> Clean(SizeArg(e, s, p).value)
  {
    hide Lead, ValueOf, TokenEnd;
  }

  lemma {:induction false} MemberIsClean(s: string, p: nat)
    requires p <= |s|
    ensures ParseMember(s, p).Done? ==> NoStops(ParseMember(s, p).value.name) && Clean(ParseMember(s, p).value.ty)
    decreases Left(s, p), 0
  {
    hide ParseType;
    TokenHasNoStops(s, p);
    ParsedIsClean(s, TokenEnd(s, p) + 1);
  }

  lemma {:induction false} MembersAreClean(s: string, pos: nat)
    ensures ParseMembers(s, pos).Done? ==> AllClean(ParseMembers(s, pos).value)
    decreases Left(s, pos), 1
  {
    hide ParseMember, Clean;
    if pos < |s| && s[pos] == ',' {
      MemberIsClean(s, pos + 1);
      var m := ParseMember(s, pos + 1);
      if m.Done? {
        MembersAreClean(s, m.next);
        if ParseMembers(s, m.next).Done? {
          var fs := ParseMembers(s, m.next).value;
          assert ([m.value] + fs)[1..] == fs;
        }
      }
    }
  }

  lemma {:induction false} ListedAreClean(s: string, p: nat)
    requires p <= |s|
    ensures ParseListed(s, p).Done? ==> AllClean(ParseListed(s, p).value)
    decreases Left(s, p), 2
  {
    hide ParseMember, ParseMembers, Clean;
    if p < |s| && s[p] != ')' {
      MemberIsClean(s, p);
      var m := ParseMember(s, p);
      if m.Done? {
        MembersAreClean(s, m.next);
        if ParseMembers(s, m.next).Done? {
          var fs := ParseMembers(s, m.next).value;
          assert ([m.value] + fs)[1..] == fs;
        }
      }
    } else {
      MembersAreClean(s, p);
    }
  }

  lemma CellIsGood(tok: string)
    requires Plain(tok, ',')
    ensures CellOf(tok).Got? ==> GoodEntry(CellOf(tok).entry)
  {
    hide ReadInt;
    var eq := Find(tok, 0, '=');
    FindMisses(tok, 0, '=');
    if eq < |tok| {
      ReadsAreInRange(tok[eq + 1..], INT_MIN, INT_MAX);
    }
  }

  lemma {:induction false} EntriesAreGood(toks: seq<string>)
    requires forall k | 0 <= k < |toks| :: Plain(toks[k], ',')
    ensures EntriesOf(toks).Some? ==> GoodEntries(EntriesOf(toks).value)
  {
    hide CellOf, GoodEntry, Plain;
    if toks != [] {
      EntriesAreGood(toks[..|toks| - 1]);
      CellIsGood(toks[|toks| - 1]);
    }
  }

  lemma EnumIsStorable(rest: string)
    ensures EnumOf(rest).Enum? ==> Storable(EnumOf(rest))
  {
    hide EntriesOf, Split;
    var colon := Find(rest, 0, ':');
    FindMisses(rest, 0, ':');
    if colon < |rest| {
      TokensArePlain(rest[colon + 1..], 0, ',');
      EntriesAreGood(Split(rest[colon + 1..], 0, ','));
    }
  }

  /** Whatever is decoded, unless a lone scalar, is storable. */
  lemma DecodedIsStorable(spec: string)
    ensures Decode(spec).Scalar? || Storable(Decode(spec))
  {
    hide EnumOf, ParseType;
    if spec != [] {
      if ENUM_PREFIX <= spec {
        EnumIsStorable(spec[5..]);
        EnumOrBare(spec[5..]);
      } else {
        ParsedIsClean(spec, 0);
      }
    }
  }

  lemma EnumOrBare(rest: string)
    ensures EnumOf(rest).Enum? || EnumOf(rest).Bare?
  {
    hide EntriesOf, Split;
  }

  // ------------------------------------------------------------ storing and reading back

  lemma CellReadBack(e: Entry)
    requires GoodEntry(e)
    ensures CellOf(EntryText(e)) == Got(e) && EntryText(e) != [] && Plain(EntryText(e), ',')
  {
    hide ReadInt, ToText;
    var tok := EntryText(e);
    FindSkips(tok, 0, |e.tag|, '=');
    assert tok[|e.tag| + 1..] == ToText(e.number) && tok[..|e.tag|] == e.tag;
    IntAlone(e.number, INT_MIN, INT_MAX);
    TextIsPlain(e.number, ',');
  }

  lemma {:induction false} EntriesReadBack(es: seq<Entry>)
    requires GoodEntries(es)
    ensures EntriesOf(EntryTexts(es)) == Some(es)
  {
    hide CellOf, EntryText, GoodEntry;
    if es != [] {
      var n := |es| - 1;
      EntriesReadBack(es[..n]);
      CellReadBack(es[n]);
      assert EntryTexts(es)[..n] == EntryTexts(es[..n]) && es[..n] + [es[n]] == es;
    }
  }

  lemma EnumReadBack(name: string, es: seq<Entry>)
    requires Plain(name, ':') && GoodEntries(es)
    ensures EnumOf(name + ":" + Join(EntryTexts(es), ',')) == Enum(name, es)
  {
    hide EntriesOf, Split, Join, CellOf, EntryText;
    var list := Join(EntryTexts(es), ',');
    var rest := name + ":" + list;
    FindSkips(rest, 0, |name|, ':');
    assert rest[|name| + 1..] == list && rest[..|name|] == name;
    forall k | 0 <= k < |es| ensures EntryTexts(es)[k] != [] && Plain(EntryTexts(es)[k], ',') {
      CellReadBack(es[k]);
    }
    SplitJoin(EntryTexts(es), ',');
    EntriesReadBack(es);
  }

  /** Neither text form can be taken for the other. */
  lemma FormsDiffer(t: Type)
    requires Named(t)
    ensures Nested(t) != [] && Nested(t)[0] != 'E' && !(ENUM_PREFIX <= Nested(t))
  {
  }

  lemma NestedReadBack(t: Type)
    requires Named(t) && Clean(t)
    ensures Decode(Nested(t)) == t
  {
    hide ParseType, Nested, Clean, Named;
    FormsDiffer(t);
    RoundTrip(t, Nested(t), 0);
  }

  /** Storing a type and decoding its text gives the type back exactly for the storable ones. */
  lemma SpecRoundTrip(t: Type)
    requires Named(t)
    ensures Decode(Spec(t)) == t <==> Storable(t)
  {
    hide ParseType, Nested, EnumOf, Clean;
    DecodedIsStorable(Spec(t));
    match t
    case Scalar(_) =>
    case Enum(name, es) =>
      assert Spec(t)[5..] == name + ":" + Join(EntryTexts(es), ',');
      if Storable(t) {
        EnumReadBack(name, es);
      }
    case _ =>
      FormsDiffer(t);
      if Clean(t) {
        NestedReadBack(t);
      }
  }

  /** Different storable types have different texts. */
  lemma SpecInjective(t: Type, u: Type)
    requires Named(t) && Named(u) && Storable(t) && Storable(u) && Spec(t) == Spec(u)
    ensures t == u
  {
    SpecRoundTrip(t);
    SpecRoundTrip(u);
  }

  /** What was decoded from a text, and can be written at all, survives being stored again exactly when it
      is no lone scalar. */
  lemma DecodeIsStableIff(spec: string)
    requires Named(Decode(spec))
    ensures Decode(Spec(Decode(spec))) == Decode(spec) <==> !Decode(spec).Scalar?
  {
    hide Decode, Spec;
    DecodedIsStorable(spec);
    SpecRoundTrip(Decode(spec));
  }

  /** A text that decodes to a lone scalar, which storing loses. */
  lemma ScalarIsLost(k: Kind)
    ensures Decode(NameOf(k)) == Scalar(k) && Decode(Spec(Scalar(k))) == Bare
  {
    hide ParseType, NameOf;
    assert Nested(Scalar(k)) == NameOf(k);
    NestedReadBack(Scalar(k));
  }

  lemma TokenUpTo(s: string, pos: nat, e: nat)
    requires pos <= e <= |s| && (e < |s| ==> IsStop(s[e])) && forall k | pos <= k < e :: !IsStop(s[k])
    ensures TokenEnd(s, pos) == e
  {
    TokenEnds(s, pos, e);
  }

  const UNREADABLE := "LIST(numeric(x,1))"

  lemma InnerIsBare()
    ensures ParseType(UNREADABLE, 5) == Done(Bare, 17)
  {
    hide ReadInt, HeadOf, ParseType;
    var s := UNREADABLE;
    assert |s| == 18 && s[12] == '(' && s[14] == ',' && s[16] == ')';
    Keyword(0);
    TokenUpTo(s, 5, 12);
    TokenUpTo(s, 13, 14);
    TokenUpTo(s, 15, 16);
    assert s[5..12] == "numeric" && s[13..14] == "x";
    NoNumber();
    ReadsAsCall(s, 5, 12);
  }

  /** A text that decodes to a list of a nameless unknown type, which cannot be written. */
  lemma UnreadableDecimalHasNoName()
    ensures Decode(UNREADABLE) == List(Bare) && !Named(List(Bare))
  {
    hide HeadOf, ParseType;
    var s := UNREADABLE;
    assert |s| == 18 && s[4] == '(';
    Keyword(3);
    TokenUpTo(s, 0, 4);
    assert s[0..4] == "LIST";
    InnerIsBare();
    ReadsAsCall(s, 0, 4);
    assert s[0] != ENUM_PREFIX[0];
  }

  lemma NoNumber()
    ensures ReadInt("x", INT_MIN, INT_MAX) == None
  {
  }

  lemma ReadsAsCall(s: string, pos: nat, e: nat)
    requires pos <= |s| && e == TokenEnd(s, pos) < |s| && s[e] == '('
    ensures ParseType(s, pos) == ParseArgs(HeadOf(s[pos..e]), s[pos..e], s, e + 1)
  {
    hide ParseArgs, HeadOf;
  }
}
