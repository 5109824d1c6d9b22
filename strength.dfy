/**
 * `evaluate_password`: five independent criteria, 20 points each, and a tier
 * from the total. The code makes `Strong` exactly 100 points; 80 points (four
 * criteria) is still `Medium`.
 */
module Strength {
  import Text

  datatype Tier = Weak | Medium | Strong

  /** The dictionary `evaluate_password` returns. */
  datatype Report = Report(lengthOk: bool, hasUpper: bool, hasLower: bool, hasDigit: bool, hasSymbol: bool, strength: Tier)

  /** The only characters that count as symbols (a smaller set than `string.punctuation`). */
  const Symbols: string := "!@#$%^&*()-_=+[]{};:,.<>/"

  predicate IsSymbol(c: char) { c in Symbols }

  /** `any(p(char) for char in s)` */
  function Any(s: string, p: char -> bool): (b: bool)
    ensures b <==> exists i :: 0 <= i < |s| && p(s[i])
  {
    if s == [] then false
    else if p(s[0]) then true
    else
      var b := Any(s[1..], p);
      assert forall i :: 1 <= i < |s| ==> s[i] == s[1..][i - 1];
      b
  }

  function Points(b: bool): nat { if b then 20 else 0 }

  /** The tier of a total score: `Strong` at 100, `Medium` from 50 to 80, `Weak` below. */
  function TierOf(score: int): Tier
  {
    if score == 100 then Strong
    else if 50 <= score <= 80 then Medium
    else Weak
  }

  function Evaluate(pw: string): (r: Report)
    ensures r.lengthOk <==> |pw| >= 8
    ensures r.hasUpper <==> exists i :: 0 <= i < |pw| && Text.IsUpper(pw[i])
    ensures r.hasLower <==> exists i :: 0 <= i < |pw| && Text.IsLower(pw[i])
    ensures r.hasDigit <==> exists i :: 0 <= i < |pw| && Text.IsDigit(pw[i])
    ensures r.hasSymbol <==> exists i :: 0 <= i < |pw| && IsSymbol(pw[i])
  {
    var lengthOk := |pw| >= 8;
    var hasUpper := Any(pw, Text.IsUpper);
    var hasLower := Any(pw, Text.IsLower);
    var hasDigit := Any(pw, Text.IsDigit);
    var hasSymbol := Any(pw, IsSymbol);
    var score := Points(lengthOk) + Points(hasUpper) + Points(hasLower) + Points(hasDigit) + Points(hasSymbol);
    Report(lengthOk, hasUpper, hasLower, hasDigit, hasSymbol, TierOf(score))
  }

  /** How many of the five criteria a report meets. */
  function Met(r: Report): nat
  {
    (if r.lengthOk then 1 else 0) + (if r.hasUpper then 1 else 0) + (if r.hasLower then 1 else 0)
    + (if r.hasDigit then 1 else 0) + (if r.hasSymbol then 1 else 0)
  }

  /** The score the code accumulates. */
  function Score(pw: string): nat
  {
    var r := Evaluate(pw);
    Points(r.lengthOk) + Points(r.hasUpper) + Points(r.hasLower) + Points(r.hasDigit) + Points(r.hasSymbol)
  }

  /** The score is 20 points per criterion met, 0 to 100, and the tier follows from the count alone. */
  lemma TierByCriteria(pw: string)
    ensures Score(pw) == 20 * Met(Evaluate(pw)) <= 100
    ensures Evaluate(pw).strength == Strong <==> Met(Evaluate(pw)) == 5
    ensures Evaluate(pw).strength == Medium <==> Met(Evaluate(pw)) == 3 || Met(Evaluate(pw)) == 4
    ensures Evaluate(pw).strength == Weak <==> Met(Evaluate(pw)) <= 2
  {
    var r := Evaluate(pw);
    assert r.strength == TierOf(Score(pw));
    assert Score(pw) == 20 * Met(r);
    TierOfCount(Met(r));
  }

  lemma TierOfCount(m: nat)
    requires m <= 5
    ensures TierOf(20 * m) == Strong <==> m == 5
    ensures TierOf(20 * m) == Medium <==> m == 3 || m == 4
    ensures TierOf(20 * m) == Weak <==> m <= 2
  {
  }

  /** Passing four criteria is not enough for `Strong`. */
  lemma EightyIsMedium()
    ensures TierOf(80) == Medium && TierOf(100) == Strong && TierOf(40) == Weak && TierOf(60) == Medium
  {
  }

  /** The empty password meets no criterion. */
  lemma EmptyIsWeak()
    ensures Evaluate("") == Report(false, false, false, false, false, Weak)
  {
  }

  lemma AllFiveIsStrong()
    ensures Evaluate("Abcdef1!") == Report(true, true, true, true, true, Strong)
  {
    var pw := "Abcdef1!";
    assert Text.IsUpper(pw[0]) && Text.IsLower(pw[1]) && Text.IsDigit(pw[6]) && IsSymbol(pw[7]);
  }

  lemma LowerOnlyIsWeak()
    ensures Evaluate("abcdefgh") == Report(true, false, true, false, false, Weak)
    ensures Score("abcdefgh") == 40
  {
    var pw := "abcdefgh";
    assert Text.IsLower(pw[0]);
    forall i | 0 <= i < |pw|
      ensures !Text.IsUpper(pw[i]) && !Text.IsDigit(pw[i]) && !IsSymbol(pw[i])
    {
      LettersAreNotSymbols(pw[i]);
    }
  }

  /** No digit is a symbol. */
  lemma DigitsAreNotSymbols(c: char)
    requires Text.IsDigit(c)
    ensures !IsSymbol(c)
  {
    assert forall i :: 0 <= i < |Symbols| ==> !Text.IsDigit(Symbols[i]);
  }

  /** No letter is a symbol. */
  lemma LettersAreNotSymbols(c: char)
    requires Text.IsCased(c)
    ensures !IsSymbol(c)
  {
    assert forall i :: 0 <= i < |Symbols| ==> !Text.IsCased(Symbols[i]);
  }

  /** `?` is not a symbol, so this password meets four criteria and is `Medium`. */
  lemma QuestionMarkCase()
    ensures !IsSymbol('?')
    ensures Evaluate("aA0?bbbb") == Report(true, true, true, true, false, Medium)
  {
    var pw := "aA0?bbbb";
    QuestionMarkIsNoSymbol();
    ExampleHasNoSymbol(pw);
    assert Text.IsUpper(pw[1]) && Text.IsLower(pw[0]) && Text.IsDigit(pw[2]);
    var r := Evaluate(pw);
    assert r.lengthOk && r.hasUpper && r.hasLower && r.hasDigit && !r.hasSymbol;
    TierByCriteria(pw);
  }

  lemma QuestionMarkIsNoSymbol()
    ensures !IsSymbol('?')
  {
    assert forall i :: 0 <= i < |Symbols| ==> Symbols[i] != '?';
  }

  lemma ExampleHasNoSymbol(pw: string)
    requires pw == "aA0?bbbb" && !IsSymbol('?')
    ensures forall i :: 0 <= i < |pw| ==> !IsSymbol(pw[i])
  {
    forall i | 0 <= i < |pw|
      ensures !IsSymbol(pw[i])
    {
      if i == 2 {
        DigitsAreNotSymbols(pw[i]);
      } else if i != 3 {
        LettersAreNotSymbols(pw[i]);
      }
    }
  }
}
