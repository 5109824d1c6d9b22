/**
 * `password_generator` in its two versions. `random.choice` is modelled as
 * an arbitrary pick from a non-empty sequence, so every property below holds
 * whatever the random source returns; nothing is said about distributions.
 */
module Generator {
  import Text
  import Strength

  const Lowercase: string := "abcdefghijklmnopqrstuvwxyz"
  const Uppercase: string := "ABCDEFGHIJKLMNOPQRSTUVWXYZ"
  const Digits: string := "0123456789"
  /** `string.punctuation` */
  const Punctuation: string := "!\"#$%&'()*+,-./:;<=>?@[\\]^_`{|}~"

  /**
   * The pools, in the order the code appends them: lower case always, then
   * upper case, digits and punctuation, each only when its preference is
   * exactly `"yes"`.
   */
  function Pools(prefs: seq<string>): (pools: seq<string>)
    requires |prefs| >= 3
    ensures 1 <= |pools| <= 4 && pools[0] == Lowercase
    ensures forall j :: 0 <= j < |pools| ==> |pools[j]| > 0
  {
    [Lowercase] + (if prefs[0] == "yes" then [Uppercase] else [])
      + (if prefs[1] == "yes" then [Digits] else []) + (if prefs[2] == "yes" then [Punctuation] else [])
  }

  /** A pool is enabled exactly when its preference is `"yes"`. */
  lemma PoolsEnabled(prefs: seq<string>)
    requires |prefs| >= 3
    ensures Uppercase in Pools(prefs) <==> prefs[0] == "yes"
    ensures Digits in Pools(prefs) <==> prefs[1] == "yes"
    ensures Punctuation in Pools(prefs) <==> prefs[2] == "yes"
  {
    assert Lowercase[0] != Uppercase[0] && Lowercase[0] != Digits[0] && Lowercase[0] != Punctuation[0];
    assert Uppercase[0] != Digits[0] && Uppercase[0] != Punctuation[0] && Digits[0] != Punctuation[0];
  }

  predicate InSomePool(c: char, pools: seq<string>)
  {
    exists j :: 0 <= j < |pools| && c in pools[j]
  }

  /** `random.choice(xs)` */
  method Choice<T>(xs: seq<T>) returns (x: T)
    requires |xs| > 0
    ensures x in xs
  {
    var k :| 0 <= k < |xs|;
    x := xs[k];
  }

  /** Python's `s[:n]`, where a negative `n` counts from the end. */
  function SlicePrefix<T>(s: seq<T>, n: int): (r: seq<T>)
    ensures |r| == if n >= 0 then (if n <= |s| then n else |s|) else (if |s| + n >= 0 then |s| + n else 0)
    ensures r == s[..|r|]
  {
    if n >= 0 then (if n <= |s| then s[..n] else s)
    else if |s| + n >= 0 then s[..|s| + n] else []
  }

  /**
   * What the seeding version promises: its length, that every character
   * comes from an enabled pool, and that position `j` holds a character of
   * the `j`-th enabled pool for as many positions as the password has.
   */
  ghost predicate SeededShape(length: int, prefs: seq<string>, password: string)
    requires |prefs| >= 3
  {
    var pools := Pools(prefs);
    && |password| == (if length >= 0 then length else if |pools| + length >= 0 then |pools| + length else 0)
    && (forall i :: 0 <= i < |password| ==> InSomePool(password[i], pools))
    && (forall j :: 0 <= j < |password| && j < |pools| ==> password[j] in pools[j])
  }

  /** The seeding part of the web front end's generator: the enabled pools and one character drawn from each. */
  method SeedPools(prefs: seq<string>) returns (pools: seq<string>, chars: seq<char>)
    requires |prefs| >= 3
    ensures pools == Pools(prefs) && |chars| == |pools|
    ensures forall j :: 0 <= j < |pools| ==> chars[j] in pools[j]
  {
    var c: char;
    pools := [Lowercase];
    c := Choice(Lowercase);
    chars := [c];
    if prefs[0] == "yes" {
      pools := pools + [Uppercase];
      c := Choice(Uppercase);
      chars := chars + [c];
    }
    if prefs[1] == "yes" {
      pools := pools + [Digits];
      c := Choice(Digits);
      chars := chars + [c];
    }
    if prefs[2] == "yes" {
      pools := pools + [Punctuation];
      c := Choice(Punctuation);
      chars := chars + [c];
    }
  }

  /** `password_generator` of the web front end: one seed character per enabled pool, then fill, then cut to `length`. */
  method GenerateSeeded(length: int, prefs: seq<string>) returns (password: string, strength: Strength.Tier)
    requires |prefs| >= 3
    ensures SeededShape(length, prefs, password)
    ensures strength == Strength.Evaluate(password).strength
  {
    var pools, chars := SeedPools(prefs);
    SeedsInPools(pools, chars);

    while |chars| < length
      invariant |chars| >= |pools|
      invariant |chars| == |pools| || |chars| <= length
      invariant Drawn(chars, pools)
      decreases length - |chars|
    {
      var pool := Choice(pools);
      var c := Choice(pool);
      DrawKeeps(chars, pools, pool, c);
      chars := chars + [c];
    }

    password := SlicePrefix(chars, length);
    SliceHasShape(length, prefs, chars);
    strength := Strength.Evaluate(password).strength;
  }

  /** The first character of each pool's seat is drawn from that pool, and every character from some pool. */
  predicate Drawn(chars: seq<char>, pools: seq<string>)
  {
    && |chars| >= |pools|
    && (forall j :: 0 <= j < |pools| ==> chars[j] in pools[j])
    && (forall i :: 0 <= i < |chars| ==> InSomePool(chars[i], pools))
  }

  lemma SeedsInPools(pools: seq<string>, chars: seq<char>)
    requires |chars| == |pools| && forall j :: 0 <= j < |pools| ==> chars[j] in pools[j]
    ensures Drawn(chars, pools)
  {
    forall i | 0 <= i < |chars|
      ensures InSomePool(chars[i], pools)
    {
      assert chars[i] in pools[i];
    }
  }

  /** Drawing one more character from one of the pools keeps the drawn characters in shape. */
  lemma DrawKeeps(chars: seq<char>, pools: seq<string>, pool: string, c: char)
    requires Drawn(chars, pools) && pool in pools && c in pool
    ensures Drawn(chars + [c], pools)
  {
    var j :| 0 <= j < |pools| && pools[j] == pool;
    var next := chars + [c];
    forall i | 0 <= i < |next|
      ensures InSomePool(next[i], pools)
    {
      if i < |chars| {
        assert next[i] == chars[i];
      } else {
        assert next[i] in pools[j];
      }
    }
    forall k | 0 <= k < |pools|
      ensures next[k] in pools[k]
    {
      assert next[k] == chars[k];
    }
  }

  /** Cutting the drawn characters to `length` gives a password of the promised shape. */
  lemma SliceHasShape(length: int, prefs: seq<string>, chars: seq<char>)
    requires |prefs| >= 3
    requires Drawn(chars, Pools(prefs)) && |chars| >= length
    requires |chars| == |Pools(prefs)| || |chars| == length
    ensures SeededShape(length, prefs, SlicePrefix(chars, length))
  {
    var password := SlicePrefix(chars, length);
    assert forall i :: 0 <= i < |password| ==> password[i] == chars[i];
  }

  /** Once `length` reaches the number of enabled pools, every enabled pool is represented. */
  lemma SeededCoversEveryPool(length: int, prefs: seq<string>, password: string, j: nat)
    requires |prefs| >= 3 && SeededShape(length, prefs, password)
    requires length >= |Pools(prefs)| && j < |Pools(prefs)|
    ensures exists i :: 0 <= i < |password| && password[i] in Pools(prefs)[j]
  {
    assert password[j] in Pools(prefs)[j];
  }

  /** `password_generator` of the command-line front end: each character from a random enabled pool, no per-pool guarantee. */
  method GenerateUniform(length: int, prefs: seq<string>) returns (password: string, strength: Strength.Tier)
    requires |prefs| >= 3
    ensures |password| == if length >= 0 then length else 0
    ensures forall i :: 0 <= i < |password| ==> InSomePool(password[i], Pools(prefs))
    ensures strength == Strength.Evaluate(password).strength
  {
    var pools: seq<string> := [Lowercase];
    if prefs[0] == "yes" {
      pools := pools + [Uppercase];
    }
    if prefs[1] == "yes" {
      pools := pools + [Digits];
    }
    if prefs[2] == "yes" {
      pools := pools + [Punctuation];
    }
    assert pools == Pools(prefs);

    password := "";
    while |password| < length
      invariant |password| <= if length >= 0 then length else 0
      invariant forall i :: 0 <= i < |password| ==> InSomePool(password[i], pools)
      decreases length - |password|
    {
      var pool := Choice(pools);
      var c := Choice(pool);
      password := password + [c];
    }
    strength := Strength.Evaluate(password).strength;
  }

  /** With every preference other than `"yes"`, a password holds only lower-case letters and is `Weak`. */
  lemma LowercaseOnlyIsWeak(prefs: seq<string>, password: string)
    requires |prefs| >= 3 && prefs[0] != "yes" && prefs[1] != "yes" && prefs[2] != "yes"
    requires forall i :: 0 <= i < |password| ==> InSomePool(password[i], Pools(prefs))
    ensures Strength.Evaluate(password).strength == Strength.Weak
  {
    assert Pools(prefs) == [Lowercase];
    forall i | 0 <= i < |password|
      ensures !Text.IsUpper(password[i]) && !Text.IsDigit(password[i]) && !Strength.IsSymbol(password[i])
    {
      LowercaseIsOnlyLower(password[i]);
    }
    var r := Strength.Evaluate(password);
    assert !r.hasUpper && !r.hasDigit && !r.hasSymbol;
  }

  lemma LowercaseIsOnlyLower(c: char)
    requires c in Lowercase
    ensures Text.IsLower(c) && !Text.IsUpper(c) && !Text.IsDigit(c) && !Strength.IsSymbol(c)
  {
    assert forall i :: 0 <= i < |Lowercase| ==> Text.IsLower(Lowercase[i]);
    Strength.LettersAreNotSymbols(c);
  }

  /** Every character the evaluator counts as a symbol is punctuation. */
  lemma SymbolsArePunctuation(c: char)
    requires Strength.IsSymbol(c)
    ensures c in Punctuation
  {
  }

  /**
   * The symbol pool is larger than the evaluator's symbol set: `?` is
   * punctuation but not a symbol, so a password that meets every guarantee
   * of the seeded generator with all pools enabled, and so has a character of
   * every pool, can still be graded `Medium`.
   */
  lemma PunctuationBeyondSymbols()
    ensures '?' in Punctuation && !Strength.IsSymbol('?')
    ensures SeededShape(8, ["yes", "yes", "yes"], "aA0?bbbb")
    ensures Strength.Evaluate("aA0?bbbb").strength == Strength.Medium
  {
    SeededExample();
    Strength.QuestionMarkCase();
  }

  lemma SeededExample()
    ensures SeededShape(8, ["yes", "yes", "yes"], "aA0?bbbb")
  {
    assert Lowercase[0] == 'a' && Uppercase[0] == 'A' && Digits[0] == '0' && Punctuation[20] == '?';
    var rest := "bbbb";
    forall i | 0 <= i < |rest|
      ensures rest[i] in Lowercase
    {
      assert rest[i] == Lowercase[1];
    }
    SeededAllPools('a', 'A', '0', '?', rest);
    ExampleSpelled();
  }

  lemma ExampleSpelled()
    ensures ['a', 'A', '0', '?'] + "bbbb" == "aA0?bbbb"
  {
  }

  /** One character of each pool in pool order, then lower-case letters, meets every guarantee of the seeded generator with every pool enabled. */
  lemma SeededAllPools(l: char, u: char, d: char, p: char, rest: string)
    requires l in Lowercase && u in Uppercase && d in Digits && p in Punctuation
    requires forall i :: 0 <= i < |rest| ==> rest[i] in Lowercase
    ensures SeededShape(4 + |rest|, ["yes", "yes", "yes"], [l, u, d, p] + rest)
  {
    var pw := [l, u, d, p] + rest;
    var pools := Pools(["yes", "yes", "yes"]);
    assert |pools| == 4 && pools[0] == Lowercase && pools[1] == Uppercase && pools[2] == Digits && pools[3] == Punctuation;
    forall i | 0 <= i < |pw|
      ensures InSomePool(pw[i], pools)
    {
      var j := if i < 4 then i else 0;
      assert pw[i] == if i < 4 then [l, u, d, p][i] else rest[i - 4];
      InPool(pw[i], pools, j);
    }
  }

  lemma InPool(c: char, pools: seq<string>, j: nat)
    requires j < |pools| && c in pools[j]
    ensures InSomePool(c, pools)
  {
  }
}
