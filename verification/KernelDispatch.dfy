/**
 Overloads of a compute function.  The conflict test compares the signatures of two kernels over
 a finite set of known types; a call takes the first kernel whose signature matches.
 */
module KernelDispatch {

  datatype Option<+A> = None | Some(value: A)

  /** One test per argument position. */
  type Signature<!T> = seq<T -> bool>

  datatype Kernel<!T> = Kernel(id: nat, sig: Signature<T>)

  /** The types an overload test looks at: the default ones, and the registered ones by name. */
  datatype Types<T> = Types(defaults: seq<T>, registered: map<string, T>)

  ghost predicate Known<T>(t: T, types: Types<T>) {
    t in types.defaults || exists n | n in types.registered :: types.registered[n] == t
  }

  ghost predicate AllKnown<T>(args: seq<T>, types: Types<T>) {
    forall i | 0 <= i < |args| :: Known(args[i], types)
  }

  predicate Matches<T>(sig: Signature<T>, args: seq<T>) {
    |args| == |sig| && forall i | 0 <= i < |args| :: sig[i](args[i])
  }

  /** Some known type passes both tests. */
  ghost predicate Overlap<T(!new)>(l: T -> bool, r: T -> bool, types: Types<T>) {
    exists t :: Known(t, types) && l(t) && r(t)
  }

  /** The verdict of the overload test: the two signatures can live side by side. */
  ghost predicate Distinct<T(!new)>(l: Signature<T>, r: Signature<T>, types: Types<T>) {
    |l| != |r| || |l| == 0 || exists i | 0 <= i < |l| :: !Overlap(l[i], r[i], types)
  }

  // ------------------------------------------------------------ the loops

  method MatchesInputs<T>(sig: Signature<T>, args: seq<T>) returns (b: bool)
    ensures b == Matches(sig, args)
  {
    if |args| != |sig| {
      return false;
    }
    var i := 0;
    while i < |args|
      invariant 0 <= i <= |args|
      invariant forall k | 0 <= k < i :: sig[k](args[k])
    {
      if !sig[i](args[i]) {
        return false;
      }
      i := i + 1;
    }
    return true;
  }

  method DefaultsOverlap<T>(l: T -> bool, r: T -> bool, defaults: seq<T>) returns (found: bool)
    ensures found <==> exists j | 0 <= j < |defaults| :: l(defaults[j]) && r(defaults[j])
  {
    var j := 0;
    found := false;
    while j < |defaults|
      invariant 0 <= j <= |defaults|
      invariant forall k | 0 <= k < j :: !(l(defaults[k]) && r(defaults[k]))
    {
      if l(defaults[j]) && r(defaults[j]) {
        return true;
      }
      j := j + 1;
    }
  }

  method RegisteredOverlap<T>(l: T -> bool, r: T -> bool, registered: map<string, T>) returns (found: bool)
    ensures found <==> exists n | n in registered :: l(registered[n]) && r(registered[n])
  {
    var rest := registered.Keys;
    found := false;
    while rest != {}
      invariant rest <= registered.Keys
      invariant forall n | n in registered && n !in rest :: !(l(registered[n]) && r(registered[n]))
      decreases rest
    {
      var n :| n in rest;
      if l(registered[n]) && r(registered[n]) {
        return true;
      }
      rest := rest - {n};
    }
  }

  /** True when no conflict is found; with no arguments at all it is true for any pair. */
  method CheckSignatureConflicts<T(!new)>(lhs: Signature<T>, rhs: Signature<T>, types: Types<T>)
    returns (result: bool)
    ensures result <==> Distinct(lhs, rhs, types)
  {
    if |lhs| != |rhs| {
      return true;
    }
    result := true;
    var i := 0;
    while i < |lhs|
      invariant 0 <= i <= |lhs|
      invariant forall k | 0 <= k < i :: Overlap(lhs[k], rhs[k], types)
      invariant result <==> i == 0
    {
      var found := DefaultsOverlap(lhs[i], rhs[i], types.defaults);
      if !found {
        found := RegisteredOverlap(lhs[i], rhs[i], types.registered);
      }
      OverlapParts(lhs[i], rhs[i], types);
      result := !found;
      if result {
        return;
      }
      i := i + 1;
    }
  }

  lemma OverlapParts<T(!new)>(l: T -> bool, r: T -> bool, types: Types<T>)
    ensures Overlap(l, r, types)
            <==> (exists j | 0 <= j < |types.defaults| :: l(types.defaults[j]) && r(types.defaults[j]))
                 || (exists n | n in types.registered :: l(types.registered[n]) && r(types.registered[n]))
  {
  }

  /** The first kernel that matches. */
  function First<T>(ks: seq<Kernel<T>>, args: seq<T>): Option<nat> {
    if ks == [] then None
    else if Matches(ks[0].sig, args) then Some(ks[0].id)
    else First(ks[1..], args)
  }

  method Dispatch<T>(ks: seq<Kernel<T>>, args: seq<T>) returns (k: Option<nat>)
    ensures k == First(ks, args)
  {
    var i := 0;
    while i < |ks|
      invariant 0 <= i <= |ks|
      invariant First(ks[i..], args) == First(ks, args)
    {
      var b := MatchesInputs(ks[i].sig, args);
      if b {
        return Some(ks[i].id);
      }
      i := i + 1;
    }
    return None;
  }

  // ------------------------------------------------------------ the test is exact

  /** The test reports a conflict exactly when some list of known types matches both. */
  lemma ConflictIsExact<T(!new)>(l: Signature<T>, r: Signature<T>, types: Types<T>)
    requires |l| == |r| >= 1
    ensures !Distinct(l, r, types)
            <==> exists args :: AllKnown(args, types) && Matches(l, args) && Matches(r, args)
  {
    if !Distinct(l, r, types) {
      var args := Witnesses(l, r, types);
      assert AllKnown(args, types);
    }
    if args :| AllKnown(args, types) && Matches(l, args) && Matches(r, args) {
      forall i | 0 <= i < |l| ensures Overlap(l[i], r[i], types) {
        assert Known(args[i], types) && l[i](args[i]) && r[i](args[i]);
      }
    }
  }

  ghost function Witnesses<T(!new)>(l: Signature<T>, r: Signature<T>, types: Types<T>): (args: seq<T>)
    requires |l| == |r| && forall i | 0 <= i < |l| :: Overlap(l[i], r[i], types)
    ensures AllKnown(args, types) && Matches(l, args) && Matches(r, args)
  {
    if l == [] then []
    else
      var n := |l| - 1;
      var before := Witnesses(l[..n], r[..n], types);
      assert Overlap(l[n], r[n], types);
      var t :| Known(t, types) && l[n](t) && r[n](t);
      before + [t]
  }

  // ------------------------------------------------------------ dispatch order

  ghost predicate PairwiseDistinct<T(!new)>(ks: seq<Kernel<T>>, types: Types<T>) {
    forall i, j | 0 <= i < j < |ks| :: Distinct(ks[i].sig, ks[j].sig, types)
  }

  ghost predicate SameKernels<T>(ks: seq<Kernel<T>>, ls: seq<Kernel<T>>) {
    && (forall i | 0 <= i < |ks| :: ks[i] in ls)
    && (forall i | 0 <= i < |ls| :: ls[i] in ks)
  }

  lemma {:induction false} FirstIsMatch<T>(ks: seq<Kernel<T>>, args: seq<T>) returns (i: nat)
    ensures First(ks, args) == None ==> i == |ks| && forall k | 0 <= k < |ks| :: !Matches(ks[k].sig, args)
    ensures First(ks, args) != None ==> i < |ks| && Matches(ks[i].sig, args) && First(ks, args) == Some(ks[i].id)
    ensures forall k | 0 <= k < i :: !Matches(ks[k].sig, args)
  {
    if ks == [] || Matches(ks[0].sig, args) {
      i := 0;
    } else {
      var k := FirstIsMatch(ks[1..], args);
      i := k + 1;
    }
  }

  /** Pairwise distinct kernels: at most one of them matches known arguments. */
  lemma OneMatch<T(!new)>(ks: seq<Kernel<T>>, args: seq<T>, types: Types<T>, i: nat, j: nat)
    requires PairwiseDistinct(ks, types) && |args| >= 1 && AllKnown(args, types)
    requires i < |ks| && j < |ks| && Matches(ks[i].sig, args) && Matches(ks[j].sig, args)
    ensures i == j
  {
    if i != j {
      var a, b := if i < j then i else j, if i < j then j else i;
      ConflictIsExact(ks[a].sig, ks[b].sig, types);
      assert false;
    }
  }

  ghost predicate OrderFree<T(!new)>(args: seq<T>, types: Types<T>) {
    forall ks, ls :: PairwiseDistinct(ks, types) && SameKernels(ks, ls) ==> First(ks, args) == First(ls, args)
  }

  lemma SameFirst<T(!new)>(ks: seq<Kernel<T>>, ls: seq<Kernel<T>>, args: seq<T>, types: Types<T>)
    requires PairwiseDistinct(ks, types) && SameKernels(ks, ls) && |args| >= 1 && AllKnown(args, types)
    ensures First(ks, args) == First(ls, args)
  {
    var i := FirstIsMatch(ks, args);
    var j := FirstIsMatch(ls, args);
    if j < |ls| {
      var k :| 0 <= k < |ks| && ks[k] == ls[j];
      if i < |ks| {
        OneMatch(ks, args, types, i, k);
      }
    }
  }

  /** Tests that accept exactly the given arguments. */
  ghost function Only<T>(args: seq<T>): (sig: Signature<T>)
    ensures Matches(sig, args)
  {
    seq(|args|, i requires 0 <= i < |args| => Equals(args[i]))
  }

  ghost function Equals<T>(t: T): T -> bool {
    x => x == t
  }

  lemma OnlyIsDistinct<T(!new)>(args: seq<T>, types: Types<T>)
    requires |args| == 0 || !AllKnown(args, types)
    ensures Distinct(Only(args), Only(args), types)
  {
  }

  /**
   Dispatch over overloads that passed the test does not depend on their order exactly for calls
   with at least one argument, all of them of known types.
   */
  lemma OrderFreeIff<T(!new)>(args: seq<T>, types: Types<T>)
    ensures OrderFree(args, types) <==> |args| >= 1 && AllKnown(args, types)
  {
    if |args| >= 1 && AllKnown(args, types) {
      forall ks, ls | PairwiseDistinct(ks, types) && SameKernels(ks, ls)
        ensures First(ks, args) == First(ls, args)
      {
        SameFirst(ks, ls, args, types);
      }
    } else {
      OnlyIsDistinct(args, types);
      var a, b := Kernel(0, Only(args)), Kernel(1, Only(args));
      var ks, ls := [a, b], [b, a];
      assert PairwiseDistinct(ks, types) && SameKernels(ks, ls);
      assert First(ks, args) == Some(0) && First(ls, args) == Some(1);
    }
  }

  // ------------------------------------------------------------ NULL arguments

  /** Logical type codes; NA is the type of a NULL literal and not among the default types. */
  const NA: nat := 0
  const DEFAULTS: seq<nat> := [10, 27, 11, 28, 12, 29, 13, 30, 14, 31, 15, 23, 24, 35, 16, 17, 19, 22, 101, 109]

  predicate IntegerTypes(t: nat) {
    t == NA || 11 <= t <= 15 || 27 <= t <= 31
  }

  predicate StringTypes(t: nat) {
    t == NA || t == 35 || t == 25
  }

  /** Which type codes the two tests accept, and which are default types. */
  lemma MatchersIff(t: nat)
    ensures IntegerTypes(t) <==> t in {0, 11, 12, 13, 14, 15, 27, 28, 29, 30, 31}
    ensures StringTypes(t) <==> t in {0, 25, 35}
    ensures t in DEFAULTS <==>
            t in {10, 11, 12, 13, 14, 15, 16, 17, 19, 22, 23, 24, 27, 28, 29, 30, 31, 35, 101, 109}
  {
  }

  lemma DefaultsHaveNoNull(i: nat)
    requires i < |DEFAULTS|
    ensures DEFAULTS[i] != NA
  {
  }

  lemma NeverBoth(registered: map<string, nat>)
    requires forall n | n in registered :: registered[n] != NA
    ensures !Overlap(IntegerTypes, StringTypes, Types(DEFAULTS, registered))
  {
    var types := Types(DEFAULTS, registered);
    hide Overlap;
    forall t | Known(t, types) ensures t != NA {
      if t in DEFAULTS {
        var i :| 0 <= i < |DEFAULTS| && DEFAULTS[i] == t;
        DefaultsHaveNoNull(i);
      }
    }
    OverlapMeans(IntegerTypes, StringTypes, types);
  }

  lemma OverlapMeans<T(!new)>(l: T -> bool, r: T -> bool, types: Types<T>)
    ensures Overlap(l, r, types) ==> exists t :: Known(t, types) && l(t) && r(t)
  {
  }

  /** An integer overload and a string overload pass the test, yet a NULL argument fits both. */
  lemma NullIsAmbiguous(registered: map<string, nat>)
    requires forall n | n in registered :: registered[n] != NA
    ensures var types := Types(DEFAULTS, registered);
            var a, b := Kernel(0, [IntegerTypes]), Kernel(1, [StringTypes]);
            && PairwiseDistinct([a, b], types)
            && First([a, b], [NA]) == Some(0) && First([b, a], [NA]) == Some(1)
  {
    NeverBoth(registered);
    hide Overlap;
    var types := Types(DEFAULTS, registered);
    var a, b := Kernel(0, [IntegerTypes]), Kernel(1, [StringTypes]);
    assert !Overlap(a.sig[0], b.sig[0], types);
    assert Distinct(a.sig, b.sig, types);
    assert Matches(a.sig, [NA]) && Matches(b.sig, [NA]);
  }
}
