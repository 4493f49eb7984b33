/**
 Lists of OIDs as comma-separated text, the form in which index and constraint columns are
 stored.
 */
module OidCsv {
  import opened Decimals
  import opened Tokens

  const WORD: nat := 0x1_0000_0000
  const ULONG_MAX: nat := 0xFFFF_FFFF_FFFF_FFFF

  // ------------------------------------------------------------ specifications

  /** The OID of one token; empty and unreadable tokens give none. */
  function OidOf(tok: string): Option<nat> {
    match ReadNat(tok, ULONG_MAX)
    case Some(v) => Some(v % WORD)
    case None => None
  }

  function OidsOf(toks: seq<string>): seq<nat> {
    if toks == [] then []
    else
      var before := OidsOf(toks[..|toks| - 1]);
      match OidOf(toks[|toks| - 1])
      case Some(v) => before + [v]
      case None => before
  }

  lemma OidsTake(toks: seq<string>, k: nat)
    requires k < |toks|
    ensures OidsOf(toks[..k + 1]) == match OidOf(toks[k])
                                     case Some(v) => OidsOf(toks[..k]) + [v]
                                     case None => OidsOf(toks[..k])
  {
    assert toks[..k + 1][..k] == toks[..k];
  }

  function Texts(oids: seq<nat>): seq<string> {
    seq(|oids|, i requires 0 <= i < |oids| => Digits(oids[i]))
  }

  // ------------------------------------------------------------ the loops

  method ReadOid(tok: string) returns (oid: Option<nat>)
    ensures oid == OidOf(tok)
  {
    oid := None;
    if tok != [] {
      match ReadNat(tok, ULONG_MAX)
      case Some(v) => oid := Some(v % WORD);
      case None =>
    }
  }

  /** The loop is at `i`, before token `k`, with the OIDs of the tokens before it. */
  ghost predicate OidsSoFar(s: string, i: nat, all: seq<string>, k: nat, oids: seq<nat>) {
    && i <= |s| && k <= |all|
    && Split(s, i, ',') == all[k..]
    && oids == OidsOf(all[..k])
  }

  lemma BeforeOids(s: string)
    ensures OidsSoFar(s, 0, Split(s, 0, ','), 0, [])
  {
    hide Split;
  }

  /** One turn of the loop. */
  lemma NextOid(s: string, i: nat, all: seq<string>, k: nat, oids: seq<nat>)
    requires OidsSoFar(s, i, all, k, oids) && i < |s|
    ensures var j := Find(s, i, ',');
      OidsSoFar(s, if j == |s| then j else j + 1, all, k + 1,
                match OidOf(s[i..j]) case Some(v) => oids + [v] case None => oids)
  {
    hide OidOf, OidsOf, Split;
    TakeToken(s, i, ',', all, k);
    OidsTake(all, k);
    NoTokens(s, ',');
  }

  lemma AfterOids(s: string, all: seq<string>, k: nat, oids: seq<nat>)
    requires OidsSoFar(s, |s|, all, k, oids)
    ensures oids == OidsOf(all)
  {
    hide OidsOf;
    assert all[..k] == all;
  }

  method ParseOidCsv(s: string) returns (oids: seq<nat>)
    ensures oids == OidsOf(Split(s, 0, ','))
  {
    oids := [];
    ghost var all, k := Split(s, 0, ','), 0;
    BeforeOids(s);
    hide OidOf, Find, Split, OidsOf, OidsSoFar;
    var i := 0;
    while i < |s|
      invariant 0 <= i <= |s| && 0 <= k && OidsSoFar(s, i, all, k, oids)
      decreases |s| - i
    {
      NextOid(s, i, all, k, oids);
      var j := Find(s, i, ',');
      var oid := ReadOid(s[i..j]);
      if oid.Some? {
        oids := oids + [oid.value];
      }
      k := k + 1;
      i := if j == |s| then j else j + 1;
    }
    AfterOids(s, all, k, oids);
  }

  method EncodeOidCsv(oids: seq<nat>) returns (s: string)
    ensures s == Join(Texts(oids), ',')
  {
    s := [];
    var i := 0;
    while i < |oids|
      invariant 0 <= i <= |oids|
      invariant s == Join(Texts(oids[..i]), ',')
    {
      assert Texts(oids[..i + 1])[..i] == Texts(oids[..i]);
      if i != 0 {
        s := s + ",";
      }
      s := s + Digits(oids[i]);
      i := i + 1;
    }
    assert oids[..i] == oids;
  }

  // ------------------------------------------------------------ round trip

  lemma OidOfRead(tok: string, v: nat)
    requires v < WORD && ReadNat(tok, ULONG_MAX) == Some(v)
    ensures OidOf(tok) == Some(v)
  {
  }

  lemma OidOfDigits(v: nat)
    requires v < WORD
    ensures OidOf(Digits(v)) == Some(v)
  {
    NatAlone(v, ULONG_MAX);
    OidOfRead(Digits(v), v);
  }

  lemma {:induction false} OidsOfTexts(oids: seq<nat>)
    requires forall i | 0 <= i < |oids| :: oids[i] < WORD
    ensures OidsOf(Texts(oids)) == oids
  {
    if oids != [] {
      var n := |oids| - 1;
      OidsOfTexts(oids[..n]);
      OidOfDigits(oids[n]);
      assert Texts(oids)[..n] == Texts(oids[..n]);
    }
  }

  /** Parsing the text of any list of OIDs gives the list back. */
  lemma CsvRoundTrip(oids: seq<nat>)
    requires forall i | 0 <= i < |oids| :: oids[i] < WORD
    ensures OidsOf(Split(Join(Texts(oids), ','), 0, ',')) == oids
  {
    SplitJoin(Texts(oids), ',');
    OidsOfTexts(oids);
  }

  // ------------------------------------------------------------ any numbers

  /** What is read of a list of numbers: those of more than 64 bits are left out, the others cut to 32. */
  function Cut(ns: seq<nat>): seq<nat> {
    if ns == [] then []
    else (if ns[0] <= ULONG_MAX then [ns[0] % WORD] else []) + Cut(ns[1..])
  }

  lemma {:induction false} CutOneMore(ns: seq<nat>, n: nat)
    ensures Cut(ns + [n]) == Cut(ns) + if n <= ULONG_MAX then [n % WORD] else []
  {
    if ns == [] {
      assert [] + [n] == [n] && [n][1..] == [];
    } else {
      assert (ns + [n])[1..] == ns[1..] + [n];
      CutOneMore(ns[1..], n);
      Regrouped(if ns[0] <= ULONG_MAX then [ns[0] % WORD] else [], Cut(ns[1..]), if n <= ULONG_MAX then [n % WORD] else []);
    }
  }

  lemma Regrouped(a: seq<nat>, b: seq<nat>, c: seq<nat>)
    ensures a + (b + c) == a + b + c
  {
  }

  lemma OidOfNumber(n: nat)
    ensures OidOf(Digits(n)) == if n <= ULONG_MAX then Some(n % WORD) else None
  {
    hide ReadNat;
    if n <= ULONG_MAX {
      NatAlone(n, ULONG_MAX);
    } else {
      NatTooBig(n, [], ULONG_MAX);
      assert Digits(n) + [] == Digits(n);
    }
  }

  lemma {:induction false} OidsOfNumbers(ns: seq<nat>)
    ensures OidsOf(Texts(ns)) == Cut(ns)
  {
    hide OidOf;
    if ns != [] {
      var n := |ns| - 1;
      OidsOfNumbers(ns[..n]);
      OidOfNumber(ns[n]);
      assert Texts(ns)[..n] == Texts(ns[..n]) && ns == ns[..n] + [ns[n]];
      CutOneMore(ns[..n], ns[n]);
    }
  }

  /** Reading the text of any numbers. */
  lemma CsvOfNumbers(ns: seq<nat>)
    ensures OidsOf(Split(Join(Texts(ns), ','), 0, ',')) == Cut(ns)
  {
    hide Split, Join, OidsOf;
    forall i | 0 <= i < |ns| ensures Texts(ns)[i] != [] && Plain(Texts(ns)[i], ',') {
      TextIsPlain(ns[i], ',');
    }
    SplitJoin(Texts(ns), ',');
    OidsOfNumbers(ns);
  }

  /** A token that does not start with a digit is passed over. */
  lemma BadTokenIsSkipped(toks: seq<string>, bad: string)
    requires Ends(bad)
    ensures OidsOf(toks + [bad]) == OidsOf(toks)
  {
    NoNumber(bad, 0, ULONG_MAX);
    assert (toks + [bad])[..|toks|] == toks;
  }
}
