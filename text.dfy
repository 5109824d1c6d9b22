/**
 * The few `str` methods the vault relies on, over ASCII: the character
 * classes of `isupper`/`islower`/`isdigit`/`isspace`, `lower()`, `title()`,
 * `strip()`, `split(sep)`, `split(sep, 1)` and the substring test `in`.
 * Characters outside ASCII belong to no class and are left unchanged by
 * the case mappings.
 */
module Text {

  predicate IsUpper(c: char) { 'A' <= c <= 'Z' }
  predicate IsLower(c: char) { 'a' <= c <= 'z' }
  predicate IsDigit(c: char) { '0' <= c <= '9' }

  /** A letter that has case: what `title()` treats as part of a word. */
  predicate IsCased(c: char) { IsUpper(c) || IsLower(c) }

  /** ASCII characters for which `str.isspace()` holds (tab to carriage return, the four separators, space). */
  predicate IsSpace(c: char) { c == ' ' || '\t' <= c <= '\r' || '\U{1C}' <= c <= '\U{1F}' }

  function ToUpper(c: char): (r: char)
    ensures IsLower(c) ==> IsUpper(r) && r as int == c as int - 32
    ensures !IsLower(c) ==> r == c
  {
    if IsLower(c) then (c as int - 32) as char else c
  }

  function ToLower(c: char): (r: char)
    ensures IsUpper(c) ==> IsLower(r) && r as int == c as int + 32
    ensures !IsUpper(c) ==> r == c
  {
    if IsUpper(c) then (c as int + 32) as char else c
  }

  /**
   * `str.lower()`: no upper-case letter is left, each character is the same
   * letter up to case, and a character that is not an upper-case letter is
   * kept as it is.
   */
  function Lower(s: string): (r: string)
    ensures |r| == |s|
    ensures forall i :: 0 <= i < |s| ==> !IsUpper(r[i]) && ToUpper(r[i]) == ToUpper(s[i])
    ensures forall i :: 0 <= i < |s| ==> !IsUpper(s[i]) ==> r[i] == s[i]
  {
    seq(|s|, i requires 0 <= i < |s| => ToLower(s[i]))
  }

  lemma LowerAt(s: string, i: nat)
    requires i < |s|
    ensures Lower(s)[i] == ToLower(s[i])
  {
  }

  /** Lower-casing twice is lower-casing once. */
  lemma LowerIdempotent(s: string)
    ensures Lower(Lower(s)) == Lower(s)
  {
    var l := Lower(s);
    assert forall i :: 0 <= i < |l| ==> Lower(l)[i] == l[i];
  }

  /**
   * `str.title()`: a character that follows a cased letter is lower-cased,
   * every other character is upper-cased. `prevCased` says whether the
   * character before `s` was a cased letter.
   */
  function TitleFrom(s: string, prevCased: bool): (r: string)
    ensures |r| == |s|
    ensures forall i {:trigger r[i]} :: 0 <= i < |s| ==>
      r[i] == if (if i == 0 then prevCased else IsCased(s[i - 1])) then ToLower(s[i]) else ToUpper(s[i])
  {
    if s == [] then []
    else [if prevCased then ToLower(s[0]) else ToUpper(s[0])] + TitleFrom(s[1..], IsCased(s[0]))
  }

  function Title(s: string): (r: string)
    ensures |r| == |s|
    ensures forall i {:trigger r[i]} :: 0 <= i < |s| ==>
      r[i] == if i > 0 && IsCased(s[i - 1]) then ToLower(s[i]) else ToUpper(s[i])
  {
    TitleFrom(s, false)
  }

  /** What the case mappings keep: whether a character is a letter, and its lower and upper forms. */
  lemma CaseMapFacts(c: char)
    ensures IsCased(ToLower(c)) == IsCased(c) && IsCased(ToUpper(c)) == IsCased(c)
    ensures ToLower(ToLower(c)) == ToLower(c) && ToUpper(ToUpper(c)) == ToUpper(c)
    ensures ToLower(ToUpper(c)) == ToLower(c) && ToUpper(ToLower(c)) == ToUpper(c)
  {
  }

  /** Normalising an account name twice is the same as normalising it once. */
  lemma TitleIdempotent(s: string)
    ensures Title(Title(s)) == Title(s)
  {
    var t := Title(s);
    forall i | 0 <= i < |s|
      ensures Title(t)[i] == t[i]
    {
      CaseMapFacts(s[i]);
      if i > 0 {
        CaseMapFacts(s[i - 1]);
      }
    }
  }

  /** Title-casing changes only case, so a case-insensitive search cannot tell the two apart. */
  lemma LowerOfTitle(s: string)
    ensures Lower(Title(s)) == Lower(s)
  {
    forall i | 0 <= i < |s|
      ensures Lower(Title(s))[i] == Lower(s)[i]
    {
      CaseMapFacts(s[i]);
      assert Title(s)[i] == ToLower(s[i]) || Title(s)[i] == ToUpper(s[i]);
      assert Lower(Title(s))[i] == ToLower(Title(s)[i]);
    }
  }

  function StripLeft(s: string): (r: string)
    ensures |r| <= |s| && r == s[|s| - |r|..]
    ensures forall i :: 0 <= i < |s| - |r| ==> IsSpace(s[i])
    ensures r != [] ==> !IsSpace(r[0])
  {
    if s != [] && IsSpace(s[0]) then StripLeft(s[1..]) else s
  }

  function StripRight(s: string): (r: string)
    ensures |r| <= |s| && r == s[..|r|]
    ensures forall i :: |r| <= i < |s| ==> IsSpace(s[i])
    ensures r != [] ==> !IsSpace(r[|r| - 1])
  {
    if s != [] && IsSpace(s[|s| - 1]) then StripRight(s[..|s| - 1]) else s
  }

  /** `str.strip()` */
  function Strip(s: string): string
  {
    StripRight(StripLeft(s))
  }

  /** `strip()` keeps the longest middle part of `s` with no white space at either end. */
  lemma StripSpec(s: string) returns (i: nat, j: nat)
    ensures i <= j <= |s| && Strip(s) == s[i..j]
    ensures forall k :: 0 <= k < i ==> IsSpace(s[k])
    ensures forall k :: j <= k < |s| ==> IsSpace(s[k])
    ensures Strip(s) != [] ==> !IsSpace(Strip(s)[0]) && !IsSpace(Strip(s)[|Strip(s)| - 1])
  {
    var l := StripLeft(s);
    var r := StripRight(l);
    i, j := |s| - |l|, |s| - |l| + |r|;
    assert r == s[i..j];
  }

  /** Stripping leaves an inner string alone when it has no white space at either end. */
  lemma StripPadded(pre: string, core: string, post: string)
    requires forall k :: 0 <= k < |pre| ==> IsSpace(pre[k])
    requires forall k :: 0 <= k < |post| ==> IsSpace(post[k])
    requires core != [] ==> !IsSpace(core[0]) && !IsSpace(core[|core| - 1])
    requires core != [] || post == []
    ensures Strip(pre + core + post) == core
  {
    var s := pre + core + post;
    assert s == pre + (core + post);
    StripLeftPadded(pre, core + post);
    StripRightPadded(core, post);
  }

  lemma {:induction false} StripLeftPadded(pre: string, rest: string)
    requires forall k :: 0 <= k < |pre| ==> IsSpace(pre[k])
    requires rest != [] ==> !IsSpace(rest[0])
    ensures StripLeft(pre + rest) == rest
  {
    if pre != [] {
      assert (pre + rest)[1..] == pre[1..] + rest;
      StripLeftPadded(pre[1..], rest);
    } else {
      assert pre + rest == rest;
    }
  }

  lemma {:induction false} StripRightPadded(core: string, post: string)
    requires forall k :: 0 <= k < |post| ==> IsSpace(post[k])
    requires core != [] ==> !IsSpace(core[|core| - 1])
    requires core != [] || post == []
    ensures StripRight(core + post) == core
  {
    if post != [] {
      assert (core + post)[..|core + post| - 1] == core + post[..|post| - 1];
      StripRightPadded(core, post[..|post| - 1]);
    } else {
      assert core + post == core;
    }
  }

  /** Number of occurrences of `c` in `s`. */
  function Count(s: string, c: char): nat
  {
    multiset(s)[c]
  }

  lemma ThreeParts(s: string, i: nat, j: nat)
    requires i <= j <= |s|
    ensures s == s[..i] + s[i..j] + s[j..]
  {
  }

  lemma CountAppend(a: string, b: string, c: char)
    ensures Count(a + b, c) == Count(a, c) + Count(b, c)
  {
    assert multiset(a + b) == multiset(a) + multiset(b);
  }

  /** A character that is not white space does not occur in white space. */
  lemma CountInSpace(s: string, lo: nat, hi: nat, c: char)
    requires lo <= hi <= |s| && forall k :: lo <= k < hi ==> IsSpace(s[k])
    requires !IsSpace(c)
    ensures Count(s[lo..hi], c) == 0
  {
    var t := s[lo..hi];
    assert forall k :: 0 <= k < |t| ==> t[k] == s[lo + k];
    assert c !in t;
  }

  /** Cutting white space off both ends keeps every occurrence of a character that is not white space. */
  lemma CountMiddle(s: string, i: nat, j: nat, c: char)
    requires i <= j <= |s| && !IsSpace(c)
    requires forall k :: 0 <= k < i ==> IsSpace(s[k])
    requires forall k :: j <= k < |s| ==> IsSpace(s[k])
    ensures Count(s[i..j], c) == Count(s, c)
  {
    ThreeParts(s, i, j);
    CountAppend(s[..i] + s[i..j], s[j..], c);
    CountAppend(s[..i], s[i..j], c);
    CountInSpace(s, 0, i, c);
    assert s[0..i] == s[..i];
    CountInSpace(s, j, |s|, c);
    assert s[j..|s|] == s[j..];
  }

  /** `c in s` is a positive count. */
  lemma CountPositive(s: string, c: char)
    ensures c in s <==> Count(s, c) > 0
  {
  }

  /** `sep.join(parts)` for a one-character separator. */
  function Join(parts: seq<string>, sep: char): string
  {
    if |parts| == 0 then "" else if |parts| == 1 then parts[0] else parts[0] + [sep] + Join(parts[1..], sep)
  }

  /** `s.split(sep)` for a one-character separator. */
  function Split(s: string, sep: char): (parts: seq<string>)
    ensures |parts| >= 1
    decreases |s|
  {
    if sep !in s then [s]
    else
      var (before, after) := SplitFirst(s, sep);
      [before] + Split(after, sep)
  }

  /** `split` gives one more part than there are separators, none holding one, and joining restores `s`. */
  lemma {:induction false} SplitSpec(s: string, sep: char)
    ensures |Split(s, sep)| == Count(s, sep) + 1
    ensures forall i :: 0 <= i < |Split(s, sep)| ==> sep !in Split(s, sep)[i]
    ensures Join(Split(s, sep), sep) == s
    decreases |s|
  {
    if sep in s {
      var (before, after) := SplitFirst(s, sep);
      assert multiset(s) == multiset(before) + multiset([sep]) + multiset(after) by {
        assert s == before + [sep] + after;
      }
      SplitSpec(after, sep);
      var parts := Split(s, sep);
      assert parts[1..] == Split(after, sep);
    }
  }

  /** `s.split(sep, 1)` on a string that contains `sep`: the parts before and after its first occurrence. */
  function SplitFirst(s: string, sep: char): (r: (string, string))
    requires sep in s
    ensures s == r.0 + [sep] + r.1 && sep !in r.0
  {
    if s[0] == sep then ([], s[1..])
    else
      var (a, b) := SplitFirst(s[1..], sep);
      assert s == [s[0]] + s[1..];
      ([s[0]] + a, b)
  }

  /** Python's `needle in hay` on strings. */
  predicate Contains(hay: string, needle: string)
  {
    exists i | 0 <= i <= |hay| :: OccursAt(hay, needle, i)
  }

  predicate OccursAt(hay: string, needle: string, i: nat)
  {
    i + |needle| <= |hay| && hay[i..i + |needle|] == needle
  }

  /** The empty string occurs in every string. */
  lemma ContainsEmpty(hay: string)
    ensures Contains(hay, "")
  {
    assert OccursAt(hay, "", 0);
  }
}
