/**
 The binary codec of index keys: one tag byte, then a little-endian payload whose size the
 tag decides; text carries a 32-bit length, decimals their width and scale.
 */
module KeyCodec {

  type Byte = b: nat | b < 256
  type Bytes = seq<Byte>

  datatype Result<+T> = Ok(value: T) | Err

  // ------------------------------------------------------------ little-endian words

  function Pow256(n: nat): (p: nat)
    ensures p > 0
    ensures n > 0 ==> p % 2 == 0
  {
    if n == 0 then 1 else 256 * Pow256(n - 1)
  }

  function ToLe(v: nat, n: nat): (b: Bytes)
    ensures |b| == n
  {
    if n == 0 then [] else [v % 256] + ToLe(v / 256, n - 1)
  }

  function FromLe(b: Bytes): nat {
    if b == [] then 0 else b[0] + 256 * FromLe(b[1..])
  }

  lemma {:induction false} LeRoundTrip(v: nat, n: nat)
    ensures FromLe(ToLe(v, n)) == v % Pow256(n)
  {
    if n > 0 {
      LeRoundTrip(v / 256, n - 1);
      var p := Pow256(n - 1);
      assert ToLe(v, n)[1..] == ToLe(v / 256, n - 1);
      ModSplit(v, p);
    }
  }

  /** The lowest byte comes first. */
  lemma {:induction false} LeByte(v: nat, n: nat, i: nat)
    requires i < n
    ensures ToLe(v, n)[i] == (v / Pow256(i)) % 256
  {
    if i > 0 {
      LeByte(v / 256, n - 1, i - 1);
      DivTwice(v, Pow256(i - 1));
    }
  }

  lemma DivTwice(v: nat, p: nat)
    requires p > 0
    ensures v / 256 / p == v / (256 * p)
  {
    var q, r := v / 256, v % 256;
    var a, b := q / p, q % p;
    assert v == (256 * p) * a + (256 * b + r) by {
      assert q == p * a + b && v == 256 * q + r;
      assert 256 * (p * a) == (256 * p) * a;
    }
    DivUnique(v, 256 * p, a, 256 * b + r);
  }

  lemma DivUnique(v: nat, m: nat, a: nat, r: nat)
    requires m > 0 && v == m * a + r && r < m
    ensures v / m == a
  {
    ModUnique(v, m, a, r);
    var q := v / m;
    assert v == m * q + r;
    if a > q {
      MulAtLeast(m, a - q);
      assert false;
    } else if q > a {
      MulAtLeast(m, q - a);
      assert false;
    }
  }

  lemma ModSplit(v: nat, p: nat)
    requires p > 0
    ensures v % (256 * p) == v % 256 + 256 * ((v / 256) % p)
  {
    var q, r := v / 256, v % 256;
    var a, b := q / p, q % p;
    assert q == p * a + b;
    assert v == 256 * q + r;
    assert 256 * (p * a) == (256 * p) * a;
    assert v == (256 * p) * a + (256 * b + r);
    assert 0 <= 256 * b + r < 256 * p;
    ModUnique(v, 256 * p, a, 256 * b + r);
  }

  lemma MulAtLeast(m: nat, d: nat)
    requires d >= 1
    ensures m * d >= m
  {
  }

  lemma ModUnique(v: nat, m: nat, a: nat, r: nat)
    requires m > 0 && v == m * a + r && r < m
    ensures v % m == r
  {
    var q := v / m;
    assert v == m * q + v % m;
    if a > q {
      MulAtLeast(m, a - q);
      assert false;
    } else if q > a {
      MulAtLeast(m, q - a);
      assert false;
    }
  }

  /** Two's complement in `n` bytes. */
  function Twos(v: int, n: nat): nat
    requires v < 0 ==> -v <= Pow256(n)
  {
    if v < 0 then Pow256(n) + v else v
  }

  function Untwos(u: nat, n: nat): int {
    if 2 * u >= Pow256(n) then u - Pow256(n) else u
  }

  // ------------------------------------------------------------ values

  /** The types stored as one fixed-size word. */
  datatype Tag =
    | Boolean | TinyInt | SmallInt | Integer | BigInt
    | Date | Time | Timestamp | TimestampTz
    | UTinyInt | USmallInt | UInteger | UBigInt
    | Float | Double
    | Enum

  /** Float and Double carry their bit pattern. */
  datatype Value =
    | Null
    | Word(tag: Tag, n: int)
    | Text(bytes: Bytes)
    | Decimal(width: nat, scale: nat, n: int)
    | Unsupported(code: Byte)

  const NULL_CODE: Byte := 0
  const TEXT_CODE: Byte := 35
  const DECIMAL_CODE: Byte := 22

  function Code(t: Tag): Byte {
    match t
    case Boolean => 10
    case TinyInt => 11
    case SmallInt => 12
    case Integer => 13
    case BigInt => 14
    case Date => 16
    case Time => 17
    case Timestamp => 19
    case TimestampTz => 20
    case Float => 23
    case Double => 24
    case UTinyInt => 27
    case USmallInt => 28
    case UInteger => 29
    case UBigInt => 30
    case Enum => 104
  }

  function TagOf(code: Byte): Result<Tag> {
    match code
    case 10 => Ok(Boolean)
    case 11 => Ok(TinyInt)
    case 12 => Ok(SmallInt)
    case 13 => Ok(Integer)
    case 14 => Ok(BigInt)
    case 16 => Ok(Date)
    case 17 => Ok(Time)
    case 19 => Ok(Timestamp)
    case 20 => Ok(TimestampTz)
    case 23 => Ok(Float)
    case 24 => Ok(Double)
    case 27 => Ok(UTinyInt)
    case 28 => Ok(USmallInt)
    case 29 => Ok(UInteger)
    case 30 => Ok(UBigInt)
    case 104 => Ok(Enum)
    case _ => Err
  }

  function Size(t: Tag): nat {
    match t
    case Boolean | TinyInt | UTinyInt => 1
    case SmallInt | USmallInt => 2
    case Integer | UInteger | Date | Float | Enum => 4
    case BigInt | UBigInt | Time | Timestamp | TimestampTz | Double => 8
  }

  predicate Signed(t: Tag) {
    match t
    case TinyInt | SmallInt | Integer | BigInt | Date | Time | Timestamp | TimestampTz | Enum => true
    case Boolean | UTinyInt | USmallInt | UInteger | UBigInt | Float | Double => false
  }

  /** Bytes of a decimal of the given width; wider than 38 digits cannot be built. */
  function DecimalSize(width: nat): nat {
    if width <= 4 then 2 else if width <= 9 then 4 else if width <= 18 then 8 else 16
  }

  predicate FitsSigned(n: int, size: nat) {
    0 - Pow256(size) <= 2 * n < Pow256(size)
  }

  /** Values the types can hold. */
  predicate Valid(v: Value) {
    match v
    case Null => true
    case Word(t, n) =>
      if Signed(t) then FitsSigned(n, Size(t))
      else 0 <= n < (if t.Boolean? then 2 else Pow256(Size(t)))
    case Text(_) => true
    case Decimal(w, s, n) => w <= 38 && s < 256 && FitsSigned(n, DecimalSize(w))
    case Unsupported(code) =>
      TagOf(code).Err? && code != NULL_CODE && code != TEXT_CODE && code != DECIMAL_CODE
  }

  /** The ranges of the fixed-size types. */
  lemma WordRanges(t: Tag, n: int)
    ensures Valid(Word(t, n)) <==>
            match t
            case Boolean => n == 0 || n == 1
            case TinyInt => -0x80 <= n < 0x80
            case SmallInt => -0x8000 <= n < 0x8000
            case Integer | Date | Enum => -0x8000_0000 <= n < 0x8000_0000
            case BigInt | Time | Timestamp | TimestampTz => -0x8000_0000_0000_0000 <= n < 0x8000_0000_0000_0000
            case UTinyInt => 0 <= n < 0x100
            case USmallInt => 0 <= n < 0x1_0000
            case UInteger | Float => 0 <= n < 0x1_0000_0000
            case UBigInt | Double => 0 <= n < 0x1_0000_0000_0000_0000
  {
    Widths();
  }

  function Pow10(n: nat): nat {
    if n == 0 then 1 else 10 * Pow10(n - 1)
  }

  /** A decimal takes the smallest word of two bytes or more that holds all its digits. */
  lemma DecimalWord(width: nat)
    requires width <= 38
    ensures var size := DecimalSize(width);
      && size in {2, 4, 8, 16}
      && FitsSigned(Pow10(width) - 1, size)
      && (size > 2 ==> !FitsSigned(Pow10(width) - 1, size / 2))
  {
    Widths();
    WideWidth();
    Pow10Between(width);
  }

  lemma WideWidth()
    ensures Pow256(16) == 0x1_0000_0000_0000_0000_0000_0000_0000_0000
  {
    assert Pow256(16) == 0x1_0000_0000_0000_0000 * Pow256(8) by {
      Widths();
      assert Pow256(9) == 256 * Pow256(8) && Pow256(10) == 256 * Pow256(9) && Pow256(11) == 256 * Pow256(10);
      assert Pow256(12) == 256 * Pow256(11) && Pow256(13) == 256 * Pow256(12) && Pow256(14) == 256 * Pow256(13);
    }
    Widths();
  }

  lemma {:induction false} Pow10Rises(a: nat, b: nat)
    requires a <= b
    ensures 0 < Pow10(a) <= Pow10(b)
    decreases b
  {
    if a < b {
      Pow10Rises(a, b - 1);
    } else if a > 0 {
      Pow10Rises(a - 1, a - 1);
    }
  }

  lemma Powers()
    ensures Pow10(4) == 10_000 && Pow10(5) == 100_000 && Pow10(9) == 1_000_000_000 && Pow10(10) == 10_000_000_000
    ensures Pow10(18) == 1_000_000_000_000_000_000 && Pow10(19) == 10_000_000_000_000_000_000
    ensures Pow10(38) == 100_000_000_000_000_000_000_000_000_000_000_000_000
  {
    Scale(0, 4);
    Scale(4, 5);
    Scale(5, 5);
    Scale(9, 5);
    Scale(10, 5);
    Scale(14, 5);
    Scale(18, 5);
    Scale(19, 5);
    Scale(24, 5);
    Scale(29, 5);
    Scale(34, 4);
  }

  /** A few factors of ten at once. */
  lemma Scale(a: nat, k: nat)
    requires k == 4 || k == 5
    ensures Pow10(a + k) == Pow10(a) * if k == 4 then 10_000 else 100_000
  {
    assert Pow10(a + 2) == 100 * Pow10(a);
    assert Pow10(a + 4) == 100 * Pow10(a + 2);
  }

  lemma Pow10Between(w: nat)
    requires w <= 38
    ensures 0 < Pow10(w)
    ensures w <= 4 ==> Pow10(w) <= 10_000
    ensures 5 <= w <= 9 ==> 100_000 <= Pow10(w) <= 1_000_000_000
    ensures 10 <= w <= 18 ==> 10_000_000_000 <= Pow10(w) <= 1_000_000_000_000_000_000
    ensures 19 <= w ==>
              10_000_000_000_000_000_000 <= Pow10(w) <= 100_000_000_000_000_000_000_000_000_000_000_000_000
  {
    hide Pow10;
    Powers();
    Pow10Rises(w, w);
    if w <= 4 {
      Pow10Rises(w, 4);
    } else if w <= 9 {
      Pow10Rises(5, w);
      Pow10Rises(w, 9);
    } else if w <= 18 {
      Pow10Rises(10, w);
      Pow10Rises(w, 18);
    } else {
      Pow10Rises(19, w);
      Pow10Rises(w, 38);
    }
  }

  /** The bytes of a value; a type without a codec is refused. */
  function Encode(v: Value): Result<Bytes>
    requires Valid(v)
  {
    match v
    case Null => Ok([NULL_CODE])
    case Word(t, n) => Ok([Code(t)] + ToLe(Twos(n, Size(t)), Size(t)))
    case Text(s) => Ok([TEXT_CODE] + ToLe(|s|, 4) + s)
    case Decimal(w, s, n) => Ok([DECIMAL_CODE, w, s] + ToLe(Twos(n, DecimalSize(w)), DecimalSize(w)))
    case Unsupported(_) => Err
  }

  // ------------------------------------------------------------ reading

  function ReadWord(input: Bytes, pos: nat, size: nat): Result<(nat, nat)> {
    if pos + size > |input| then Err else Ok((FromLe(input[pos..pos + size]), pos + size))
  }

  function ReadTagged(t: Tag, input: Bytes, pos: nat): Result<(Value, nat)> {
    if t.Enum? then Err
    else
      match ReadWord(input, pos, Size(t))
      case Err => Err
      case Ok((u, next)) =>
        var n := if t.Boolean? then (if u != 0 then 1 else 0)
                 else if Signed(t) then Untwos(u, Size(t)) else u;
        Ok((Word(t, n), next))
  }

  function ReadText(input: Bytes, pos: nat): Result<(Value, nat)> {
    match ReadWord(input, pos, 4)
    case Err => Err
    case Ok((n, next)) =>
      if next + n > |input| then Err else Ok((Text(input[next..next + n]), next + n))
  }

  function ReadDecimal(input: Bytes, pos: nat): Result<(Value, nat)> {
    match ReadWord(input, pos, 1)
    case Err => Err
    case Ok((w, p1)) =>
      match ReadWord(input, p1, 1)
      case Err => Err
      case Ok((s, p2)) =>
        if w > 38 then Err
        else
          match ReadWord(input, p2, DecimalSize(w))
          case Err => Err
          case Ok((u, p3)) => Ok((Decimal(w, s, Untwos(u, DecimalSize(w))), p3))
  }

  /** Reads one value at `pos` and returns it with the position behind it. */
  function Read(input: Bytes, pos: nat): Result<(Value, nat)> {
    if pos + 1 > |input| then Err
    else
      var code := input[pos];
      if code == DECIMAL_CODE then ReadDecimal(input, pos + 1)
      else if code == NULL_CODE then Ok((Null, pos + 1))
      else if code == TEXT_CODE then ReadText(input, pos + 1)
      else
        match TagOf(code)
        case Err => Err
        case Ok(t) => ReadTagged(t, input, pos + 1)
  }

  // ------------------------------------------------------------ round trip

  /** The values that survive: not an enum, and text short enough for its length field. */
  predicate Supported(v: Value) {
    && Valid(v)
    && !v.Unsupported?
    && (v.Word? ==> !v.tag.Enum?)
    && (v.Text? ==> |v.bytes| < Pow256(4))
  }

  lemma WordAt(pre: Bytes, v: nat, n: nat, post: Bytes)
    ensures ReadWord(pre + ToLe(v, n) + post, |pre|, n) == Ok((v % Pow256(n), |pre| + n))
  {
    LeRoundTrip(v, n);
    assert (pre + ToLe(v, n) + post)[|pre|..|pre| + n] == ToLe(v, n);
  }

  lemma SmallMod(v: nat, m: nat)
    requires v < m
    ensures v % m == v
  {
    ModUnique(v, m, 0, v);
  }

  lemma TwosRoundTrip(n: int, size: nat)
    requires FitsSigned(n, size) && size > 0
    ensures Twos(n, size) < Pow256(size) && Untwos(Twos(n, size), size) == n
  {
  }

  lemma CodeRoundTrip(t: Tag)
    ensures TagOf(Code(t)) == Ok(t)
    ensures Code(t) != NULL_CODE && Code(t) != TEXT_CODE && Code(t) != DECIMAL_CODE
  {
  }

  /** The word of a valid value is in range, and turns back into the value. */
  lemma WordInRange(t: Tag, n: int)
    requires Valid(Word(t, n))
    ensures var u := Twos(n, Size(t));
      && u < Pow256(Size(t))
      && n == if t.Boolean? then (if u != 0 then 1 else 0) else if Signed(t) then Untwos(u, Size(t)) else u
  {
  }

  lemma ReadBackTagged(head: Bytes, t: Tag, n: int, post: Bytes)
    requires Valid(Word(t, n)) && !t.Enum?
    ensures ReadTagged(t, head + ToLe(Twos(n, Size(t)), Size(t)) + post, |head|)
            == Ok((Word(t, n), |head| + Size(t)))
  {
    WordInRange(t, n);
    WordAt(head, Twos(n, Size(t)), Size(t), post);
    SmallMod(Twos(n, Size(t)), Pow256(Size(t)));
  }

  lemma ReadBackWord(pre: Bytes, v: Value, post: Bytes)
    requires Valid(v) && v.Word?
    ensures var e := Encode(v).value;
      Read(pre + e + post, |pre|) == (if v.tag.Enum? then Err else Ok((v, |pre| + |e|)))
  {
    var t := v.tag;
    var w := ToLe(Twos(v.n, Size(t)), Size(t));
    var e := Encode(v).value;
    var head := pre + [Code(t)];
    var all := pre + e + post;
    CodeRoundTrip(t);
    assert all == head + w + post;
    assert all[|pre|] == Code(t);
    assert Read(all, |pre|) == ReadTagged(t, all, |head|);
    if !t.Enum? {
      ReadBackTagged(head, t, v.n, post);
    }
  }

  lemma ReadBackDecimal(pre: Bytes, v: Value, post: Bytes)
    requires Valid(v) && v.Decimal?
    ensures var e := Encode(v).value; Read(pre + e + post, |pre|) == Ok((v, |pre| + |e|))
  {
    var w, s, size := v.width, v.scale, DecimalSize(v.width);
    var e := Encode(v).value;
    var u := Twos(v.n, size);
    var all := pre + e + post;
    var h1, h2, h3 := pre + [DECIMAL_CODE], pre + [DECIMAL_CODE, w], pre + [DECIMAL_CODE, w, s];
    assert Pow256(1) == 256;
    assert ToLe(w, 1) == [w] && ToLe(s, 1) == [s];
    assert all == h1 + ToLe(w, 1) + ([s] + ToLe(u, size) + post);
    assert all == h2 + ToLe(s, 1) + (ToLe(u, size) + post);
    assert all == h3 + ToLe(u, size) + post;
    WordAt(h1, w, 1, [s] + ToLe(u, size) + post);
    WordAt(h2, s, 1, ToLe(u, size) + post);
    WordAt(h3, u, size, post);
    TwosRoundTrip(v.n, size);
    SmallMod(u, Pow256(size));
  }

  /** Text comes back cut to its length modulo 2^32. */
  lemma ReadBackText(pre: Bytes, v: Value, post: Bytes)
    requires v.Text?
    ensures var e := Encode(v).value;
      var kept := |v.bytes| % Pow256(4);
      Read(pre + e + post, |pre|) == Ok((Text(v.bytes[..kept]), |pre| + 5 + kept))
  {
    var s := v.bytes;
    var e := Encode(v).value;
    var kept := |s| % Pow256(4);
    var head := pre + [TEXT_CODE];
    var all := pre + e + post;
    assert all == head + ToLe(|s|, 4) + (s + post);
    WordAt(head, |s|, 4, s + post);
    var next := |head| + 4;
    assert all[next..] == s + post;
    ModAtMost(|s|, Pow256(4));
    assert all[next..next + kept] == all[next..][..kept] == s[..kept];
  }

  lemma ModAtMost(v: nat, m: nat)
    requires m > 0
    ensures v % m <= v
    ensures v % m == v <==> v < m
  {
    assert v == m * (v / m) + v % m;
    if v < m { SmallMod(v, m); } else { assert v / m >= 1; }
  }

  /** A value is read back, at any offset of any buffer and consuming exactly its bytes,
      exactly when it is supported. */
  lemma ReadBackIff(pre: Bytes, v: Value, post: Bytes)
    requires Valid(v) && Encode(v).Ok?
    ensures var e := Encode(v).value;
      Read(pre + e + post, |pre|) == Ok((v, |pre| + |e|)) <==> Supported(v)
  {
    match v
    case Null =>
    case Word(_, _) => ReadBackWord(pre, v, post);
    case Decimal(_, _, _) => ReadBackDecimal(pre, v, post);
    case Text(s) =>
      ReadBackText(pre, v, post);
      ModAtMost(|s|, Pow256(4));
      assert s[..|s|] == s;
    case Unsupported(_) =>
  }

  lemma ReadBackFirst(v: Value, rest: Bytes)
    requires Supported(v)
    ensures Encode(v).Ok?
    ensures Read(Encode(v).value + rest, 0) == Ok((v, |Encode(v).value|))
  {
    ReadBackIff([], v, rest);
    assert [] + Encode(v).value == Encode(v).value;
  }

  /** No encoding is the beginning of another one; in particular encoding is injective. */
  lemma PrefixFree(a: Value, b: Value, ea: Bytes, eb: Bytes, rest: Bytes)
    requires Supported(a) && Supported(b)
    requires Encode(a) == Ok(ea) && Encode(b) == Ok(eb) && eb == ea + rest
    ensures a == b && rest == []
  {
    assert Read(ea + rest, 0) == Ok((a, |ea|)) by { ReadBackFirst(a, rest); }
    assert Read(eb + [], 0) == Ok((b, |eb|)) by { ReadBackFirst(b, []); }
    assert eb + [] == eb;
  }

  /** The parts of an encoding behind its tag. */
  lemma EncodedParts(v: Value)
    requires Supported(v)
    ensures var e := Encode(v).value;
      match v
      case Null => e == [0]
      case Word(t, n) =>
        |e| == 1 + Size(t) && forall i: nat | i < Size(t) :: e[1 + i] == (Twos(n, Size(t)) / Pow256(i)) % 256
      case Text(s) => |e| == 5 + |s| && e[5..] == s && forall i: nat | i < 4 :: e[1 + i] == (|s| / Pow256(i)) % 256
      case Decimal(w, sc, n) =>
        && |e| == 3 + DecimalSize(w) && e[1] == w && e[2] == sc
        && forall i: nat | i < DecimalSize(w) :: e[3 + i] == (Twos(n, DecimalSize(w)) / Pow256(i)) % 256
  {
    hide ToLe, Pow256, Twos;
    match v
    case Null =>
    case Word(t, n) =>
      forall i: nat | i < Size(t) { LeByte(Twos(n, Size(t)), Size(t), i); }
    case Text(s) =>
      forall i: nat | i < 4 { LeByte(|s|, 4, i); }
    case Decimal(w, _, n) =>
      forall i: nat | i < DecimalSize(w) { LeByte(Twos(n, DecimalSize(w)), DecimalSize(w), i); }
  }

  lemma CutText(length: Bytes, cut: Bytes)
    requires |length| == 4 && 0 < |cut| < 5 + FromLe(length) && cut[0] == TEXT_CODE
    requires |cut| >= 5 ==> cut[1..5] == length
    ensures Read(cut, 0) == Err
  {
    hide FromLe, TagOf;
  }

  lemma LengthField(length: Bytes, s: Bytes, n: nat)
    requires |length| == 4 && 5 <= n <= 5 + |s|
    ensures ([TEXT_CODE] + length + s)[..n][1..5] == length
  {
  }

  lemma CutDecimal(w: Byte, sc: Byte, number: Bytes, cut: Bytes)
    requires w <= 38 && |number| == DecimalSize(w)
    requires cut <= [DECIMAL_CODE, w, sc] + number && |cut| < 3 + |number|
    ensures Read(cut, 0) == Err
  {
    hide TagOf, DecimalSize, Untwos;
    if |cut| >= 3 {
      assert cut[1] == w && cut[1..2] == [w];
      assert FromLe([w]) == w + 256 * FromLe([w][1..]) && [w][1..] == [];
    }
  }

  /** An encoding that is cut short cannot be read. */
  lemma CutShortFails(v: Value, n: nat)
    requires Supported(v) && n < |Encode(v).value|
    ensures Read(Encode(v).value[..n], 0) == Err
  {
    hide ToLe, FromLe, Pow256, TagOf, Twos, DecimalSize;
    var e := Encode(v).value;
    match v
    case Null =>
    case Word(t, _) => CodeRoundTrip(t);
    case Text(s) =>
      LeRoundTrip(|s|, 4);
      SmallMod(|s|, Pow256(4));
      if n > 0 {
        if n >= 5 {
          LengthField(ToLe(|s|, 4), s, n);
        }
        CutText(ToLe(|s|, 4), e[..n]);
      }
    case Decimal(w, sc, _) => CutDecimal(w, sc, e[3..], e[..n]);
  }

  /** A boolean byte is true unless it is zero. */
  lemma BooleanByte(b: Byte, rest: Bytes)
    ensures Read([10, b] + rest, 0) == Ok((Word(Boolean, if b == 0 then 0 else 1), 2))
  {
    var s := [10, b] + rest;
    assert s[0] == 10 && s[1..2] == [b] && [b][1..] == [];
    assert FromLe([b]) == b + 256 * FromLe([]);
  }

  /** Only the known tags are read. */
  lemma TagsRead(b: Bytes)
    requires b != [] && Read(b, 0).Ok?
    ensures b[0] in {0, 10, 11, 12, 13, 14, 16, 17, 19, 20, 22, 23, 24, 27, 28, 29, 30, 35}
  {
  }

  // ------------------------------------------------------------ the two encoders

  /** The payload the streaming encoder appends behind the tag byte of a word. */
  method AppendLe(out: Bytes, v: nat, size: nat) returns (r: Bytes)
    ensures r == out + ToLe(v, size)
  {
    r := out;
    var rest, i := v, 0;
    while i < size
      invariant 0 <= i <= size
      invariant r + ToLe(rest, size - i) == out + ToLe(v, size)
    {
      assert [rest % 256] + ToLe(rest / 256, size - i - 1) == ToLe(rest, size - i);
      ghost var before := r;
      r := r + [rest % 256];
      assert r + ToLe(rest / 256, size - i - 1) == before + ToLe(rest, size - i);
      rest, i := rest / 256, i + 1;
    }
  }

  /** The streaming encoder appends to a buffer. */
  method AppendValue(out: Bytes, v: Value) returns (r: Result<Bytes>)
    requires Valid(v)
    ensures r == match Encode(v) case Ok(e) => Ok(out + e) case Err => Err
  {
    match v
    case Null => r := Ok(out + [NULL_CODE]);
    case Word(t, n) =>
      var o := AppendLe(out + [Code(t)], Twos(n, Size(t)), Size(t));
      assert o == out + ([Code(t)] + ToLe(Twos(n, Size(t)), Size(t)));
      r := Ok(o);
    case Text(s) =>
      var o := AppendLe(out + [TEXT_CODE], |s|, 4);
      assert o + s == out + ([TEXT_CODE] + ToLe(|s|, 4) + s);
      r := Ok(o + s);
    case Decimal(w, s, n) =>
      var o := AppendLe(out + [DECIMAL_CODE] + [w] + [s], Twos(n, DecimalSize(w)), DecimalSize(w));
      assert o == out + ([DECIMAL_CODE, w, s] + ToLe(Twos(n, DecimalSize(w)), DecimalSize(w)));
      r := Ok(o);
    case Unsupported(_) => r := Err;
  }

  /** The one-shot encoder of disk keys produces the same bytes as the streaming one. */
  method EncodeDiskKey(v: Value) returns (r: Result<Bytes>)
    requires Valid(v)
    ensures r == Encode(v)
  {
    match v
    case Null => r := Ok([NULL_CODE]);
    case Word(t, n) =>
      var out := AppendLe([Code(t)], Twos(n, Size(t)), Size(t));
      r := Ok(out);
    case Text(s) =>
      var out := AppendLe([TEXT_CODE], |s|, 4);
      r := Ok(out + s);
    case Decimal(w, s, n) =>
      var out := AppendLe([DECIMAL_CODE, w, s], Twos(n, DecimalSize(w)), DecimalSize(w));
      r := Ok(out);
    case Unsupported(_) => r := Err;
  }

  // ------------------------------------------------------------ normalised keys

  /** Integer keys are widened to 64 bits before they are encoded. */
  function Normalize(v: Value): (r: Value)
    requires Valid(v)
    ensures Valid(r)
    ensures Supported(v) ==> Supported(r)
  {
    match v
    case Word(t, n) =>
      Widths();
      (match t
       case TinyInt | SmallInt | Integer | BigInt => Word(BigInt, n)
       case UTinyInt | USmallInt | UInteger | UBigInt => Word(UBigInt, n)
       case _ => v)
    case _ => v
  }

  lemma Widths()
    ensures Pow256(1) == 0x100 && Pow256(2) == 0x1_0000 && Pow256(4) == 0x1_0000_0000
    ensures Pow256(8) == 0x1_0000_0000_0000_0000
  {
  }

  /** The bytes under which the disk index files a key. */
  function EncodeKey(v: Value): Result<Bytes>
    requires Valid(v)
  {
    Encode(Normalize(v))
  }

  function DecodeKey(b: Bytes): Result<Value> {
    match Read(b, 0)
    case Err => Err
    case Ok((v, _)) => Ok(v)
  }

  /** Decoding a filed key gives the normalised key, and encoding it again gives the same bytes. */
  lemma KeyRoundTrip(v: Value)
    requires Supported(v)
    ensures EncodeKey(v).Ok?
    ensures DecodeKey(EncodeKey(v).value) == Ok(Normalize(v))
    ensures EncodeKey(Normalize(v)) == EncodeKey(v)
  {
    var e := EncodeKey(v).value;
    ReadBackIff([], Normalize(v), []);
    assert [] + e + [] == e;
  }

  /** An enum has an encoding, which cannot be read back. */
  lemma EnumIsUnreadable(n: int)
    requires Valid(Word(Enum, n))
    ensures EncodeKey(Word(Enum, n)).Ok? && DecodeKey(EncodeKey(Word(Enum, n)).value) == Err
  {
    assert EncodeKey(Word(Enum, n)).value[0] == 104;
  }

  /** Two keys are filed under the same bytes exactly when they are equal as column values. */
  lemma KeyInjective(a: Value, b: Value)
    requires Supported(a) && Supported(b)
    ensures EncodeKey(a) == EncodeKey(b) <==> Normalize(a) == Normalize(b)
  {
    if EncodeKey(a) == EncodeKey(b) {
      KeyRoundTrip(a);
      KeyRoundTrip(b);
    }
  }

  predicate IsSigned(v: Value) {
    v.Word? && v.tag in {TinyInt, SmallInt, Integer, BigInt}
  }

  predicate IsUnsigned(v: Value) {
    v.Word? && v.tag in {UTinyInt, USmallInt, UInteger, UBigInt}
  }

  /** Integers of one signedness are one key whatever their width; anything else is a key of its own. */
  predicate SameKey(a: Value, b: Value) {
    if IsSigned(a) then IsSigned(b) && a.n == b.n
    else if IsUnsigned(a) then IsUnsigned(b) && a.n == b.n
    else a == b
  }

  /** A row filed under one value is found under another exactly when they are the same key. */
  lemma FiledTogetherIff(a: Value, b: Value)
    requires Supported(a) && Supported(b)
    ensures EncodeKey(a) == EncodeKey(b) <==> SameKey(a, b)
  {
    hide Encode, FitsSigned, Pow256, Size, Signed;
    KeyInjective(a, b);
  }

  /** The first byte of a filed key: integers take the tag of their widest type, others keep theirs. */
  lemma FiledTag(v: Value)
    requires Supported(v)
    ensures EncodeKey(v).Ok? && EncodeKey(v).value != []
    ensures EncodeKey(v).value[0] ==
            match v
            case Null => 0
            case Text(_) => 35
            case Decimal(_, _, _) => 22
            case Word(t, _) =>
              (match t
               case TinyInt | SmallInt | Integer | BigInt => 14
               case UTinyInt | USmallInt | UInteger | UBigInt => 30
               case Boolean => 10
               case Date => 16
               case Time => 17
               case Timestamp => 19
               case TimestampTz => 20
               case Float => 23
               case Double => 24)
  {
    EncodedTag(Normalize(v));
    hide Encode, Pow256, FitsSigned, Size, Signed;
    KeyRoundTrip(v);
  }

  lemma EncodedTag(v: Value)
    requires Supported(v)
    ensures Encode(v).Ok? && Encode(v).value != []
    ensures Encode(v).value[0] ==
            match v case Null => 0 case Text(_) => 35 case Decimal(_, _, _) => 22 case Word(t, _) => Code(t)
  {
  }
}
