/**
 Catalog names of the scalar types: the one written for each, and the ones that are read,
 which include older and SQL aliases.
 */
module TypeNames {
  import opened Decimals

  datatype Kind =
    | Boolean | TinyInt | UTinyInt | SmallInt | USmallInt | Integer | UInteger | BigInt | UBigInt
    | Float | Double | Text | Timestamp | TimestampTz | Date | Time | TimeTz | Interval | Blob | Uuid

  function Index(k: Kind): (i: nat)
    ensures i < 20
  {
    match k
    case Boolean => 0
    case TinyInt => 1
    case UTinyInt => 2
    case SmallInt => 3
    case USmallInt => 4
    case Integer => 5
    case UInteger => 6
    case BigInt => 7
    case UBigInt => 8
    case Float => 9
    case Double => 10
    case Text => 11
    case Timestamp => 12
    case TimestampTz => 13
    case Date => 14
    case Time => 15
    case TimeTz => 16
    case Interval => 17
    case Blob => 18
    case Uuid => 19
  }

  /** The names written, in the order of the kinds. */
  const WRITTEN: seq<string> := [
    "bool", "int1", "uint1", "int2", "uint2", "int4", "uint4", "int8", "uint8", "float4", "float8",
    "text", "timestamp", "timestamp with time zone", "date", "time", "time with time zone",
    "interval", "bytea", "uuid"]

  /** The names read; the first match counts. */
  const READ: seq<(string, Kind)> := [
    ("bool", Boolean), ("int1", TinyInt), ("uint1", UTinyInt), ("int2", SmallInt), ("uint2", USmallInt),
    ("int4", Integer), ("uint4", UInteger), ("int8", BigInt), ("uint8", UBigInt), ("float4", Float),
    ("float8", Double), ("text", Text), ("timestamp", Timestamp),
    ("timestamp with time zone", TimestampTz), ("date", Date), ("time", Time),
    ("time with time zone", TimeTz), ("interval", Interval), ("bytea", Blob), ("uuid", Uuid),
    ("int16", SmallInt), ("int32", Integer), ("int64", BigInt), ("float32", Float), ("float64", Double),
    ("string", Text), ("blob", Blob), ("boolean", Boolean), ("integer", Integer), ("bigint", BigInt),
    ("double", Double), ("float", Float), ("smallint", SmallInt), ("tinyint", TinyInt),
    ("varchar", Text), ("int8_t", BigInt)]

  function NameOf(k: Kind): string {
    WRITTEN[Index(k)]
  }

  function Lookup<T>(table: seq<(string, T)>, i: nat, name: string): Option<T>
    requires i <= |table|
    decreases |table| - i
  {
    if i == |table| then None
    else if table[i].0 == name then Some(table[i].1)
    else Lookup(table, i + 1, name)
  }

  function KindOf(name: string): Option<Kind> {
    Lookup(READ, 0, name)
  }

  lemma {:induction false} LookupFinds<T>(table: seq<(string, T)>, i: nat, j: nat)
    requires i <= j < |table| && forall k | i <= k < j :: table[k].0 != table[j].0
    ensures Lookup(table, i, table[j].0) == Some(table[j].1)
    decreases j - i
  {
    if i < j {
      LookupFinds(table, i + 1, j);
    }
  }

  lemma NamesAreDistinct(i: nat, j: nat)
    requires i < j < |WRITTEN|
    ensures WRITTEN[i] != WRITTEN[j]
  {
  }

  lemma ReadStartsWithWritten(i: nat)
    requires i < |WRITTEN|
    ensures |WRITTEN| <= |READ| && READ[i].0 == WRITTEN[i]
  {
  }

  lemma WrittenAt(i: nat)
    requires i < |WRITTEN|
    ensures |WRITTEN| <= |READ| && Index(READ[i].1) == i
  {
  }

  lemma IndexInjective(k: Kind, m: Kind)
    requires Index(k) == Index(m)
    ensures k == m
  {
  }

  lemma KindAt(k: Kind)
    ensures READ[Index(k)].1 == k
  {
    WrittenAt(Index(k));
    hide Index;
    IndexInjective(READ[Index(k)].1, k);
  }

  /** No name that is read shadows one that is written. */
  lemma NamesReadBack(k: Kind)
    ensures KindOf(NameOf(k)) == Some(k)
  {
    hide Index;
    var j := Index(k);
    ReadStartsWithWritten(j);
    KindAt(k);
    forall i | 0 <= i < j ensures READ[i].0 != READ[j].0 {
      NamesAreDistinct(i, j);
      ReadStartsWithWritten(i);
    }
    LookupFinds(READ, 0, j);
  }

  // ------------------------------------------------------------ aliases

  /** The other names under which a type is read. */
  function Aliases(k: Kind): seq<string> {
    match k
    case Boolean => ["boolean"]
    case TinyInt => ["tinyint"]
    case SmallInt => ["int16", "smallint"]
    case Integer => ["int32", "integer"]
    case BigInt => ["int64", "bigint", "int8_t"]
    case Float => ["float32", "float"]
    case Double => ["float64", "double"]
    case Text => ["string", "varchar"]
    case Blob => ["blob"]
    case _ => []
  }

  lemma AliasAt(i: nat)
    requires |WRITTEN| <= i < |READ|
    ensures READ[i].0 in Aliases(READ[i].1)
  {
  }

  lemma ReadIsAName(i: nat)
    requires i < |READ|
    ensures READ[i].0 == NameOf(READ[i].1) || READ[i].0 in Aliases(READ[i].1)
  {
    hide Index, Aliases;
    if i < |WRITTEN| {
      WrittenAt(i);
      ReadStartsWithWritten(i);
    } else {
      AliasAt(i);
    }
  }

  lemma {:induction false} LookupIsIn<T>(table: seq<(string, T)>, i: nat, name: string)
    requires i <= |table|
    ensures Lookup(table, i, name).Some? ==> exists j | i <= j < |table| :: table[j] == (name, Lookup(table, i, name).value)
    ensures Lookup(table, i, name).None? ==> forall j | i <= j < |table| :: table[j].0 != name
    decreases |table| - i
  {
    if i < |table| {
      LookupIsIn(table, i + 1, name);
    }
  }

  lemma NoAliasIsWritten(i: nat, j: nat)
    requires i < |WRITTEN| && |WRITTEN| <= j < |READ|
    ensures WRITTEN[i] != READ[j].0
  {
  }

  lemma AliasesDiffer(i: nat, j: nat)
    requires |WRITTEN| <= i < j < |READ|
    ensures READ[i].0 != READ[j].0
  {
  }

  /** Where an alias stands in the table. */
  lemma AliasIsRead(k: Kind, name: string) returns (i: nat)
    requires name in Aliases(k)
    ensures |WRITTEN| <= i < |READ| && READ[i] == (name, k)
  {
    var j :| 0 <= j < |Aliases(k)| && Aliases(k)[j] == name;
    i := if k.Boolean? then 27
      else if k.TinyInt? then 33
      else if k.SmallInt? then (if j == 0 then 20 else 32)
      else if k.Integer? then (if j == 0 then 21 else 28)
      else if k.BigInt? then (if j == 0 then 22 else if j == 1 then 29 else 35)
      else if k.Float? then (if j == 0 then 23 else 31)
      else if k.Double? then (if j == 0 then 24 else 30)
      else if k.Text? then (if j == 0 then 25 else 34)
      else 26;
  }

  /** A name is read as a type exactly when it is the name written for it or one of its aliases. */
  lemma KindOfIff(name: string, k: Kind)
    ensures KindOf(name) == Some(k) <==> name == NameOf(k) || name in Aliases(k)
  {
    hide Aliases, Index;
    LookupIsIn(READ, 0, name);
    if KindOf(name) == Some(k) {
      var j :| 0 <= j < |READ| && READ[j] == (name, k);
      ReadIsAName(j);
    } else if name == NameOf(k) {
      NamesReadBack(k);
    } else if name in Aliases(k) {
      var i := AliasIsRead(k, name);
      forall j | 0 <= j < i ensures READ[j].0 != name {
        if j < |WRITTEN| {
          ReadStartsWithWritten(j);
          NoAliasIsWritten(j, i);
        } else {
          AliasesDiffer(j, i);
        }
      }
      LookupFinds(READ, 0, i);
    }
  }

  /** The names as they are stored. */
  lemma WrittenNames(k: Kind)
    ensures NameOf(k) ==
            match k
            case Boolean => "bool"
            case TinyInt => "int1"
            case UTinyInt => "uint1"
            case SmallInt => "int2"
            case USmallInt => "uint2"
            case Integer => "int4"
            case UInteger => "uint4"
            case BigInt => "int8"
            case UBigInt => "uint8"
            case Float => "float4"
            case Double => "float8"
            case Text => "text"
            case Timestamp => "timestamp"
            case TimestampTz => "timestamp with time zone"
            case Date => "date"
            case Time => "time"
            case TimeTz => "time with time zone"
            case Interval => "interval"
            case Blob => "bytea"
            case Uuid => "uuid"
  {
  }

  predicate IsStop(c: char) {
    c == '(' || c == ')' || c == ',' || c == ':'
  }

  ghost predicate NoStops(name: string) {
    forall i | 0 <= i < |name| :: !IsStop(name[i])
  }

  predicate IsNameChar(c: char) {
    !IsStop(c) && c != 'E' && c != 'V'
  }

  lemma FirstNames(i: nat, j: nat)
    requires i < 11 && j < |WRITTEN[i]|
    ensures IsNameChar(WRITTEN[i][j])
  {
  }

  lemma LastNames(i: nat, j: nat)
    requires 11 <= i < |WRITTEN| && j < |WRITTEN[i]|
    ensures IsNameChar(WRITTEN[i][j])
  {
  }

  lemma WrittenChars(i: nat, j: nat)
    requires i < |WRITTEN| && j < |WRITTEN[i]|
    ensures IsNameChar(WRITTEN[i][j])
  {
    hide IsNameChar;
    if i < 11 {
      FirstNames(i, j);
    } else {
      LastNames(i, j);
    }
  }

  /** A written name is one token, and starts neither a variant nor an enum. */
  lemma NamesAreTokens(k: Kind)
    ensures NoStops(NameOf(k)) && NameOf(k) != [] && NameOf(k)[0] != 'E' && NameOf(k)[0] != 'V'
  {
    hide Index;
    forall j | 0 <= j < |NameOf(k)| ensures !IsStop(NameOf(k)[j]) {
      WrittenChars(Index(k), j);
    }
    WrittenIsNotEmpty(Index(k));
    WrittenChars(Index(k), 0);
  }

  lemma WrittenIsNotEmpty(i: nat)
    requires i < |WRITTEN|
    ensures WRITTEN[i] != []
  {
  }
}
