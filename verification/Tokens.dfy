/**
 Separated lists in text: the search for the next separator, the tokens between separators,
 and the text a list of tokens makes.
 */
module Tokens {

  /** Position of the first `c` at or after `i`, or the end. */
  function Find(s: string, i: nat, c: char): (j: nat)
    requires i <= |s|
    ensures i <= j <= |s|
    ensures j < |s| ==> s[j] == c
    decreases |s| - i
  {
    if i == |s| || s[i] == c then i else Find(s, i + 1, c)
  }

  lemma {:induction false} FindMisses(s: string, i: nat, c: char)
    requires i <= |s|
    ensures forall k | i <= k < Find(s, i, c) :: s[k] != c
    decreases |s| - i
  {
    if i < |s| && s[i] != c {
      FindMisses(s, i + 1, c);
    }
  }

  /** The tokens from `i` on.  Nothing follows a separator that ends the text. */
  function Split(s: string, i: nat, c: char): seq<string>
    requires i <= |s|
    decreases |s| - i
  {
    if i == |s| then []
    else
      var j := Find(s, i, c);
      if j == |s| then [s[i..j]] else [s[i..j]] + Split(s, j + 1, c)
  }

  function Join(toks: seq<string>, c: char): string {
    if toks == [] then []
    else if |toks| == 1 then toks[0]
    else Join(toks[..|toks| - 1], c) + [c] + toks[|toks| - 1]
  }

  ghost predicate Plain(tok: string, c: char) {
    forall k | 0 <= k < |tok| :: tok[k] != c
  }

  lemma {:induction false} FindSkips(s: string, i: nat, j: nat, c: char)
    requires i <= j <= |s| && (forall k | i <= k < j :: s[k] != c) && (j == |s| || s[j] == c)
    ensures Find(s, i, c) == j
    decreases j - i
  {
    if i < j {
      FindSkips(s, i + 1, j, c);
    }
  }

  lemma LastToken(s: string, i: nat, c: char)
    requires i < |s| && (forall k | i <= k < |s| :: s[k] != c)
    ensures Split(s, i, c) == [s[i..]]
  {
    FindSkips(s, i, |s|, c);
    assert s[i..|s|] == s[i..];
  }

  lemma {:induction false} TokensArePlain(s: string, i: nat, c: char)
    requires i <= |s|
    ensures forall k | 0 <= k < |Split(s, i, c)| :: Plain(Split(s, i, c)[k], c)
    decreases |s| - i
  {
    if i < |s| {
      var j := Find(s, i, c);
      FindMisses(s, i, c);
      assert Plain(s[i..j], c);
      if j < |s| {
        TokensArePlain(s, j + 1, c);
      }
    }
  }

  lemma FirstToken(s: string, i: nat, j: nat, c: char)
    requires i <= j < |s| && (forall k | i <= k < j :: s[k] != c) && s[j] == c
    ensures Split(s, i, c) == [s[i..j]] + Split(s, j + 1, c)
  {
    FindSkips(s, i, j, c);
  }

  /** A reader at `i`, about to take token `k` of `all`. */
  lemma TakeToken(s: string, i: nat, c: char, all: seq<string>, k: nat)
    requires i < |s| && k <= |all| && Split(s, i, c) == all[k..]
    ensures k < |all| && all[k] == s[i..Find(s, i, c)]
    ensures all[k + 1..] == if Find(s, i, c) == |s| then [] else Split(s, Find(s, i, c) + 1, c)
  {
    assert all[k + 1..] == all[k..][1..];
  }

  lemma NoTokens(s: string, c: char)
    ensures Split(s, |s|, c) == []
  {
  }

  lemma SliceOfTake(s: string, n: nat, i: nat, j: nat)
    requires i <= j <= n <= |s|
    ensures s[..n][i..j] == s[i..j]
  {
  }

  lemma Regroup(x: string, mid: seq<string>, y: string)
    ensures [x] + (mid + [y]) == [x] + mid + [y]
  {
  }

  /** One more token, from `n + 1` on, after a text that does not end with a separator. */
  lemma {:induction false} SplitAppend(s: string, i: nat, n: nat, c: char)
    requires i < n < |s| - 1 && s[n - 1] != c && s[n] == c && (forall k | n < k < |s| :: s[k] != c)
    ensures Split(s, i, c) == Split(s[..n], i, c) + [s[n + 1..]]
    decreases n - i
  {
    hide Split;
    var a := s[..n];
    var j := Find(a, i, c);
    FindMisses(a, i, c);
    FirstToken(s, i, j, c);
    SliceOfTake(s, n, i, j);
    if j == n {
      LastToken(a, i, c);
      LastToken(s, n + 1, c);
    } else {
      FirstToken(a, i, j, c);
      SplitAppend(s, j + 1, n, c);
      Regroup(a[i..j], Split(a, j + 1, c), s[n + 1..]);
    }
  }

  /** The joined text ends with the last token, after a separator. */
  lemma JoinShape(toks: seq<string>, c: char, before: string)
    requires |toks| > 1 && before == Join(toks[..|toks| - 1], c)
    requires toks[|toks| - 1] != [] && Plain(toks[|toks| - 1], c)
    ensures var s, tok := Join(toks, c), toks[|toks| - 1];
            && |s| == |before| + 1 + |tok| && s[..|before|] == before && s[|before|] == c
            && s[|before| + 1..] == tok && (forall k | |before| < k < |s| :: s[k] != c)
  {
  }

  /** Splitting what was joined gives the tokens back. */
  lemma {:induction false} SplitJoin(toks: seq<string>, c: char)
    requires forall k | 0 <= k < |toks| :: toks[k] != [] && Plain(toks[k], c)
    ensures Split(Join(toks, c), 0, c) == toks
    ensures toks != [] ==> Join(toks, c) != [] && Join(toks, c)[|Join(toks, c)| - 1] != c
  {
    hide Find;
    if |toks| == 1 {
      LastToken(toks[0], 0, c);
    } else if toks != [] {
      var n := |toks| - 1;
      var before := Join(toks[..n], c);
      SplitJoin(toks[..n], c);
      JoinShape(toks, c, before);
      SplitAppend(Join(toks, c), 0, |before|, c);
    }
  }

  // ------------------------------------------------------------ empty tokens

  /** The tokens from `i` on, with the empty one that a separator at the end leaves behind. */
  function Full(s: string, i: nat, c: char): seq<string>
    requires i <= |s|
  {
    Split(s, i, c) + if i == |s| || s[|s| - 1] == c then [[]] else []
  }

  /** Splitting at a separator. */
  lemma {:induction false} SplitAt(s: string, i: nat, n: nat, c: char)
    requires i <= n < |s| && s[n] == c
    ensures Split(s, i, c) == Full(s[..n], i, c) + Split(s, n + 1, c)
    decreases n - i
  {
    hide Split;
    var a := s[..n];
    var j := Find(s, i, c);
    FindMisses(s, i, c);
    FirstToken(s, i, j, c);
    if j == n {
      if i < n {
        LastToken(a, i, c);
        assert a[i..] == s[i..n];
      } else {
        NoTokens(a, c);
        assert s[i..j] == [];
      }
    } else {
      SplitAt(s, j + 1, n, c);
      FirstToken(a, i, j, c);
      SliceOfTake(s, n, i, j);
      Prepend(s[i..j], Full(a, j + 1, c), Split(s, n + 1, c));
      assert Full(a, i, c) == [s[i..j]] + Full(a, j + 1, c);
    }
  }

  lemma Prepend(x: string, mid: seq<string>, rest: seq<string>)
    ensures [x] + (mid + rest) == [x] + mid + rest
  {
  }

  lemma {:induction false} FullJoin(toks: seq<string>, c: char)
    requires toks != [] && forall k | 0 <= k < |toks| :: Plain(toks[k], c)
    ensures Full(Join(toks, c), 0, c) == toks
  {
    hide Split;
    var n := |toks| - 1;
    var t := toks[n];
    if n == 0 {
      if t != [] {
        LastToken(t, 0, c);
        assert t[0..] == t;
      } else {
        NoTokens([], c);
      }
    } else {
      FullJoin(toks[..n], c);
      var b, s := Join(toks[..n], c), Join(toks, c);
      assert s == b + [c] + t;
      assert s[..|b|] == b && s[|b|] == c && s[|b| + 1..] == t;
      SplitAt(s, 0, |b|, c);
      if t == [] {
        NoTokens(s, c);
      } else {
        LastToken(s, |b| + 1, c);
        assert s[|s| - 1] == t[|t| - 1];
      }
      assert toks == toks[..n] + [t];
    }
  }

  /** Splitting what was joined gives all tokens back, empty ones included, but for an empty one at the end. */
  lemma SplitJoinAll(toks: seq<string>, c: char)
    requires toks != [] && forall k | 0 <= k < |toks| :: Plain(toks[k], c)
    ensures Split(Join(toks, c), 0, c) == if toks[|toks| - 1] == [] then toks[..|toks| - 1] else toks
  {
    FullJoin(toks, c);
    var s := Join(toks, c);
    var extra := s == [] || s[|s| - 1] == c;
    if extra {
      assert Full(s, 0, c) == Split(s, 0, c) + [[]];
      assert toks[..|toks| - 1] == Split(s, 0, c);
    } else {
      assert Full(s, 0, c) == Split(s, 0, c);
      if toks[|toks| - 1] == [] {
        LastOfJoin(toks, c);
      }
    }
  }

  lemma LastOfJoin(toks: seq<string>, c: char)
    requires toks != [] && toks[|toks| - 1] == []
    ensures Join(toks, c) == [] || Join(toks, c)[|Join(toks, c)| - 1] == c
  {
  }
}
