/**
 Column default values as text: the type's name, a colon, and the value.
 */
module DefaultSpec {
  import opened Decimals
  import opened Tokens
  import opened TypeNames

  /** A default value; `Unkept` is any value of a type whose defaults are not stored. */
  datatype Default =
    | Null
    | Truth(b: bool)
    | Number(kind: Kind, n: int)
    | Floating(kind: Kind, bits: nat)
    | Words(text: string)
    | Unkept

  /** How the platform prints and reads floating-point numbers. */
  datatype Floats = Floats(show: (Kind, nat) -> string, read: (Kind, string) -> Option<nat>)

  const LONG_MIN: int := -0x8000_0000_0000_0000
  const LONG_MAX: nat := 0x7FFF_FFFF_FFFF_FFFF
  const ULONG_MAX: nat := 0xFFFF_FFFF_FFFF_FFFF
  const INT_MIN: int := -0x8000_0000
  const INT_MAX: nat := 0x7FFF_FFFF

  /** Integer kinds: how many values, and whether half of them are negative. */
  function Span(k: Kind): nat {
    match k
    case TinyInt => 0x100
    case UTinyInt => 0x100
    case SmallInt => 0x1_0000
    case USmallInt => 0x1_0000
    case Integer => 0x1_0000_0000
    case UInteger => 0x1_0000_0000
    case BigInt => 0x1_0000_0000_0000_0000
    case UBigInt => 0x1_0000_0000_0000_0000
    case _ => 0
  }

  predicate Signed(k: Kind) {
    k.TinyInt? || k.SmallInt? || k.Integer? || k.BigInt?
  }

  predicate Fits(k: Kind, n: int) {
    if Signed(k) then -(Span(k) as int) <= 2 * n < Span(k) else 0 <= n < Span(k)
  }

  predicate IsFloat(k: Kind) {
    k.Float? || k.Double?
  }

  predicate WellTyped(v: Default) {
    && (v.Number? ==> Span(v.kind) > 0 && Fits(v.kind, v.n))
    && (v.Floating? ==> IsFloat(v.kind))
  }

  // ------------------------------------------------------------ text

  function Encode(v: Default, f: Floats): string
    requires WellTyped(v)
  {
    match v
    case Null => "NULL"
    case Truth(b) => NameOf(Boolean) + ":" + if b then "1" else "0"
    case Number(k, n) => NameOf(k) + ":" + ToText(n)
    case Floating(k, bits) => NameOf(k) + ":" + f.show(k, bits)
    case Words(text) => NameOf(Text) + ":" + text
    case Unkept => ""
  }

  /** A read number cast to the kind's width. */
  function Cast(k: Kind, v: int): int
    requires Span(k) > 0
  {
    var m := v % Span(k);
    if Signed(k) && 2 * m >= Span(k) then m - Span(k) else m
  }

  /** The number a kind reads: small signed kinds read an int, the rest 64 bits. */
  function ReadNumber(k: Kind, text: string): Option<int> {
    if k.BigInt? then ReadInt(text, LONG_MIN, LONG_MAX)
    else if Signed(k) then ReadInt(text, INT_MIN, INT_MAX)
    else match ReadNat(text, ULONG_MAX)
      case Some(v) => Some(v as int)
      case None => None
  }

  function DecodeAs(k: Kind, text: string, f: Floats): Option<Default> {
    if k.Boolean? then Some(Truth(text == "1"))
    else if k.Text? then Some(Words(text))
    else if Span(k) > 0 then
      match ReadNumber(k, text)
      case Some(v) => Some(Number(k, Cast(k, v)))
      case None => None
    else if IsFloat(k) then
      match f.read(k, text)
      case Some(bits) => Some(Floating(k, bits))
      case None => None
    else None
  }

  /** No value for an empty text, for `NULL`, without a colon, or for an unreadable number. */
  function Decode(spec: string, f: Floats): Option<Default> {
    if spec == [] || spec == "NULL" then None
    else
      var colon := Find(spec, 0, ':');
      if colon == |spec| then None
      else match KindOf(spec[..colon])
        case Some(k) => DecodeAs(k, spec[colon + 1..], f)
        case None => None
  }

  // ------------------------------------------------------------ round trip

  lemma MulBound(q: int, m: int)
    requires 0 < m
    ensures q >= 1 ==> q * m >= m
    ensures q <= -2 ==> q * m <= -2 * m
  {
  }

  lemma ModSmall(v: int, m: int)
    requires 0 < m && -m <= v < m
    ensures v % m == if v < 0 then v + m else v
  {
    var q := v / m;
    assert v == q * m + v % m;
    MulBound(q, m);
    assert q == 0 || q == -1;
  }

  lemma CastFits(k: Kind, v: int)
    requires Span(k) > 0
    ensures Fits(k, Cast(k, v)) && (Fits(k, v) ==> Cast(k, v) == v)
  {
    hide Span;
    if Fits(k, v) {
      ModSmall(v, Span(k));
    }
  }

  lemma NumberReadBack(k: Kind, n: int, f: Floats)
    requires Span(k) > 0 && Fits(k, n)
    ensures DecodeAs(k, ToText(n), f) == Some(Number(k, n))
  {
    hide ReadInt, ReadNat, Digits, Cast;
    CastFits(k, n);
    if k.BigInt? {
      IntAlone(n, LONG_MIN, LONG_MAX);
    } else if Signed(k) {
      IntAlone(n, INT_MIN, INT_MAX);
    } else {
      NatAlone(n, ULONG_MAX);
    }
  }

  /** The text before the first colon is the kind's name, whatever follows it. */
  lemma NameThenText(k: Kind, text: string, f: Floats)
    ensures Decode(NameOf(k) + ":" + text, f) == DecodeAs(k, text, f)
  {
    hide DecodeAs, NameOf, KindOf;
    var spec := NameOf(k) + ":" + text;
    NamesAreTokens(k);
    FindSkips(spec, 0, |NameOf(k)|, ':');
    assert spec[..|NameOf(k)|] == NameOf(k) && spec[|NameOf(k)| + 1..] == text;
    assert spec[|NameOf(k)|] == ':';
    assert spec != "NULL" by {
      assert ':' in spec;
    }
    NamesReadBack(k);
  }

  /**
   A default comes back when it is a boolean, an integer or a string, or a floating-point number
   that the platform reads back from its print; NULL and unkept values never do.
   */
  lemma DefaultRoundTrip(v: Default, f: Floats)
    requires WellTyped(v)
    ensures Decode(Encode(v, f), f) == Some(v)
            <==> v.Truth? || v.Number? || v.Words?
                 || (v.Floating? && f.read(v.kind, f.show(v.kind, v.bits)) == Some(v.bits))
    ensures v.Null? || v.Unkept? ==> Decode(Encode(v, f), f) == None
  {
    hide NameOf, ToText;
    match v
    case Null =>
    case Unkept =>
    case Truth(b) => NameThenText(Boolean, if b then "1" else "0", f);
    case Words(text) => NameThenText(Text, text, f);
    case Floating(k, bits) => NameThenText(k, f.show(k, bits), f);
    case Number(k, n) =>
      NameThenText(k, ToText(n), f);
      NumberReadBack(k, n, f);
  }

  /** Every text decodes to nothing or to a value of its type, narrow numbers having wrapped. */
  lemma DecodedIsWellTyped(spec: string, f: Floats)
    ensures Decode(spec, f).Some? ==> WellTyped(Decode(spec, f).value)
  {
  }

  // ------------------------------------------------------------ any text

  /** A boolean is true for `1` and false for every other text; strings are taken as they are. */
  lemma PlainDefaults(text: string, f: Floats)
    ensures Decode(NameOf(Boolean) + ":" + text, f) == Some(Truth(text == "1"))
    ensures Decode(NameOf(Text) + ":" + text, f) == Some(Words(text))
  {
    hide NameOf;
    NameThenText(Boolean, text, f);
    NameThenText(Text, text, f);
  }

  /** The numbers that are read for a kind: small signed kinds read 32 bits, the rest 64. */
  predicate InReach(k: Kind, n: int) {
    match k
    case BigInt => -0x8000_0000_0000_0000 <= n < 0x8000_0000_0000_0000
    case TinyInt | SmallInt | Integer => -0x8000_0000 <= n < 0x8000_0000
    case UTinyInt | USmallInt | UInteger | UBigInt => 0 <= n < 0x1_0000_0000_0000_0000
    case _ => false
  }

  /** How many values a kind has. */
  function Values(k: Kind): nat {
    match k
    case TinyInt | UTinyInt => 0x100
    case SmallInt | USmallInt => 0x1_0000
    case Integer | UInteger => 0x1_0000_0000
    case _ => 0x1_0000_0000_0000_0000
  }

  /** A number in reach is read and wraps into its kind; any other is refused. */
  lemma NumberDefault(k: Kind, n: int, f: Floats)
    requires Span(k) > 0
    ensures var r := Decode(NameOf(k) + ":" + ToText(n), f);
      if !InReach(k, n) then r == None
      else r.Some? && r.value.Number? && r.value.kind == k && Fits(k, r.value.n) && (r.value.n - n) % Values(k) == 0
  {
    hide NameOf, ReadNumber, ToText, Cast, Fits, Values, InReach, Decode;
    NameThenText(k, ToText(n), f);
    NumberReads(k, n);
    if InReach(k, n) {
      CastFits(k, n);
      CastWraps(k, n);
    }
  }

  lemma NumberReads(k: Kind, n: int)
    requires Span(k) > 0
    ensures ReadNumber(k, ToText(n)) == if InReach(k, n) then Some(n) else None
  {
    hide ReadInt, ReadNat, Digits;
    assert ToText(n) + [] == ToText(n);
    if k.BigInt? {
      if InReach(k, n) {
        IntAlone(n, LONG_MIN, LONG_MAX);
      } else {
        IntOutOfRange(n, [], LONG_MIN, LONG_MAX);
      }
    } else if Signed(k) {
      if InReach(k, n) {
        IntAlone(n, INT_MIN, INT_MAX);
      } else {
        IntOutOfRange(n, [], INT_MIN, INT_MAX);
      }
    } else if n < 0 {
      NoNumber("-" + Digits(-n), 0, ULONG_MAX);
    } else if n <= ULONG_MAX {
      NatAlone(n, ULONG_MAX);
    } else {
      NatTooBig(n, [], ULONG_MAX);
    }
  }

  lemma CastWraps(k: Kind, v: int)
    requires Span(k) > 0
    ensures Span(k) == Values(k) && (Cast(k, v) - v) % Values(k) == 0
  {
    var m := Span(k);
    var q := v / m;
    assert v == q * m + v % m;
    assert Span(k) == Values(k);
    if Cast(k, v) == v % m {
      Multiple(-q, m, Cast(k, v) - v);
    } else {
      assert -q * m - m == (-q - 1) * m;
      Multiple(-q - 1, m, Cast(k, v) - v);
    }
  }

  lemma Multiple(q: int, m: int, x: int)
    requires m > 0 && x == q * m
    ensures x % m == 0
  {
    var r := x % m;
    var p := x / m;
    assert x == p * m + r;
    assert (q - p) * m == r;
    if q > p {
      MulBound(q - p, m);
      assert false;
    } else if q < p {
      MulBound(p - q, m);
      assert false;
    }
  }

  /** The texts that are not a name, a colon and a printed value. */
  lemma PlainForms(text: string, f: Floats)
    ensures Encode(Null, f) == "NULL" && Encode(Unkept, f) == ""
    ensures Encode(Truth(true), f) == "bool:1" && Encode(Truth(false), f) == "bool:0"
    ensures Encode(Words(text), f) == "text:" + text
  {
    WrittenNames(Boolean);
    WrittenNames(Text);
    assert "bool" + ":" == "bool:" && "text" + ":" == "text:";
  }
}
