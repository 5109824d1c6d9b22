/**
 * The command-line front end: the master-password login with three
 * attempts, the handlers that change the vault in place, and
 * `view_passwords`, which builds its report as one string. The answers a
 * user types are parameters, in the order the prompts ask for them.
 */
module Cli {
  import opened Wrappers
  import Text
  import Strength
  import Secret
  import Sorting
  import Vault

  // ---------------------------------------------------------------- login

  const MaxAttempts: nat := 3

  /** The candidate encodes to the stored text. */
  predicate Opens(stored: string, candidate: string)
  {
    Secret.EncodeSecret(candidate) == stored
  }

  /** Some candidate encodes to the stored text. */
  predicate Accepts(stored: string, candidates: seq<string>)
  {
    exists i | 0 <= i < |candidates| :: Opens(stored, candidates[i])
  }

  /**
   * `login`. Without a master file the first answer becomes the master
   * password, whatever its strength, and `written` is the file's new
   * content. Otherwise the file content, read as it is, is compared with the
   * encoding of each answer in turn, at most `MaxAttempts` times, stopping
   * at the first match; `asked` counts the prompts.
   */
  method Login(master: Option<string>, answers: seq<string>) returns (granted: bool, written: Option<string>, asked: nat)
    requires |answers| >= if master.None? then 1 else MaxAttempts
    ensures master.None? ==> granted && written == Some(Secret.EncodeSecret(answers[0])) && asked == 1
    ensures master.Some? ==> written == None && 1 <= asked <= MaxAttempts
    ensures master.Some? ==> (granted <==> Accepts(master.value, answers[..MaxAttempts]))
    ensures master.Some? ==> !Accepts(master.value, answers[..asked - 1])
    ensures master.Some? && granted ==> Secret.EncodeSecret(answers[asked - 1]) == master.value
    ensures master.Some? && !granted ==> asked == MaxAttempts
  {
    if master.None? {
      var password := answers[0];
      return true, Some(Secret.EncodeSecret(password)), 1;
    }
    granted, asked := Attempts(master.value, answers);
    written := None;
  }

  /** The prompt loop against an existing master file. */
  method Attempts(stored: string, answers: seq<string>) returns (granted: bool, asked: nat)
    requires |answers| >= MaxAttempts
    ensures 1 <= asked <= MaxAttempts
    ensures granted <==> Accepts(stored, answers[..MaxAttempts])
    ensures !Accepts(stored, answers[..asked - 1])
    ensures granted ==> Opens(stored, answers[asked - 1])
    ensures !granted ==> asked == MaxAttempts
  {
    var attempts := 0;
    granted, asked := false, MaxAttempts;
    while attempts < MaxAttempts
      invariant attempts <= MaxAttempts
      invariant !Accepts(stored, answers[..attempts])
    {
      var candidate := answers[attempts];
      if Opens(stored, candidate) {
        granted, asked := true, attempts + 1;
        break;
      }
      AcceptsSnoc(stored, answers, attempts);
      attempts := attempts + 1;
    }
    Verdict(stored, answers, granted, asked);
  }

  /** Why the loop's answer is the right one: where it stopped, and that nothing before matched. */
  lemma Verdict(stored: string, answers: seq<string>, granted: bool, asked: nat)
    requires |answers| >= MaxAttempts && 1 <= asked <= MaxAttempts
    requires granted ==> Opens(stored, answers[asked - 1]) && !Accepts(stored, answers[..asked - 1])
    requires !granted ==> asked == MaxAttempts && !Accepts(stored, answers[..MaxAttempts])
    ensures granted <==> Accepts(stored, answers[..MaxAttempts])
    ensures !Accepts(stored, answers[..asked - 1])
  {
    AcceptsSnoc(stored, answers, asked - 1);
    if granted {
      AcceptsLonger(stored, answers, asked, MaxAttempts);
    } else {
      assert !Accepts(stored, answers[..asked]);
    }
  }

  /** Asking one more question accepts exactly when the earlier ones did or the new answer matches. */
  lemma AcceptsSnoc(stored: string, answers: seq<string>, n: nat)
    requires n < |answers|
    ensures Accepts(stored, answers[..n + 1]) <==> Accepts(stored, answers[..n]) || Opens(stored, answers[n])
  {
    var longer := answers[..n + 1];
    assert forall i :: 0 <= i < n ==> longer[i] == answers[..n][i];
    assert longer[n] == answers[n];
  }

  /** An accepted prefix stays accepted when more answers follow. */
  lemma AcceptsLonger(stored: string, answers: seq<string>, n: nat, m: nat)
    requires n <= m <= |answers|
    requires Accepts(stored, answers[..n])
    ensures Accepts(stored, answers[..m])
  {
    var i :| 0 <= i < n && Opens(stored, answers[..n][i]);
    assert answers[..m][i] == answers[..n][i];
  }

  /** Comparing encodings is comparing passwords: a master made from `p` accepts exactly the answers equal to `p`. */
  lemma GateSound(p: string, candidates: seq<string>)
    ensures Accepts(Secret.EncodeSecret(p), candidates) <==> p in candidates
  {
    forall i | 0 <= i < |candidates|
      ensures Secret.EncodeSecret(candidates[i]) == Secret.EncodeSecret(p) <==> candidates[i] == p
    {
      Secret.EncodeSecretInjective(candidates[i], p);
    }
  }

  /**
   * The file content is not stripped here, so a master file that gained a
   * line break after the encoding lets no one in.
   */
  lemma TrailingNewlineLocksOut(p: string, candidates: seq<string>)
    ensures !Accepts(Secret.EncodeSecret(p) + "\n", candidates)
  {
    var locked := Secret.EncodeSecret(p) + "\n";
    assert Text.IsSpace(locked[|locked| - 1]);
    forall i | 0 <= i < |candidates|
      ensures Secret.EncodeSecret(candidates[i]) != locked
    {
      Secret.EncodeSecretPlain(candidates[i]);
      DiffersAtEnd(Secret.EncodeSecret(candidates[i]), locked);
    }
  }

  /** Text without white space differs from text that ends in white space. */
  lemma DiffersAtEnd(plain: string, spaced: string)
    requires forall k :: 0 <= k < |plain| ==> !Text.IsSpace(plain[k])
    requires spaced != [] && Text.IsSpace(spaced[|spaced| - 1])
    ensures plain != spaced
  {
  }

  // ---------------------------------------------------------------- changing the vault

  datatype UpdateOutcome = AccountNotFound | TooWeak | Updated(strength: Strength.Tier)

  /** The dictionary the menu passes to each handler, which changes it in place. */
  class Accounts {
    var storage: Vault.Store

    constructor (storage: Vault.Store)
      ensures this.storage == storage
    {
      this.storage := storage;
    }

    /** `add_password`: no check for empty input; the title-cased name is written, replacing any entry it had. */
    method Add(accountInput: string, password: string) returns (strength: Strength.Tier)
      modifies this
      ensures storage == Vault.Put(old(storage), Text.Title(accountInput), password)
      ensures strength == Strength.Evaluate(password).strength
    {
      var account := Text.Title(accountInput);
      var evaluation := Strength.Evaluate(password);
      storage := Vault.Put(storage, account, password);
      strength := evaluation.strength;
    }

    /** `update_password`: an unknown title-cased name or a `Weak` password changes nothing. */
    method Update(accountInput: string, newPassword: string) returns (outcome: UpdateOutcome)
      modifies this
      ensures Text.Title(accountInput) !in old(storage) ==> outcome == AccountNotFound && storage == old(storage)
      ensures Text.Title(accountInput) in old(storage) && Strength.Evaluate(newPassword).strength == Strength.Weak ==>
        outcome == TooWeak && storage == old(storage)
      ensures Text.Title(accountInput) in old(storage) && Strength.Evaluate(newPassword).strength != Strength.Weak ==>
        && outcome == Updated(Strength.Evaluate(newPassword).strength)
        && storage == Vault.Put(old(storage), Text.Title(accountInput), newPassword)
    {
      var account := Text.Title(accountInput);
      if account !in storage {
        return AccountNotFound;
      }
      var evaluation := Strength.Evaluate(newPassword);
      if evaluation.strength == Strength.Weak {
        return TooWeak;
      }
      storage := Vault.Put(storage, account, newPassword);
      outcome := Updated(evaluation.strength);
    }

    /** `delete_password`: removes the title-cased name when it is stored. */
    method Delete(accountInput: string) returns (deleted: bool)
      modifies this
      ensures deleted <==> Text.Title(accountInput) in old(storage)
      ensures storage == if deleted then Vault.Remove(old(storage), Text.Title(accountInput)) else old(storage)
    {
      var account := Text.Title(accountInput);
      if account !in storage {
        return false;
      }
      storage := Vault.Remove(storage, account);
      deleted := true;
    }
  }

  /** An update keeps the set of accounts: it never creates one. */
  lemma UpdateKeepsAccounts(storage: Vault.Store, account: string, newPassword: string)
    requires account in storage
    ensures Vault.Put(storage, account, newPassword).Keys == storage.Keys
    ensures |Vault.Put(storage, account, newPassword)| == |storage|
  {
    var r := Vault.Put(storage, account, newPassword);
    assert r.Keys == storage.Keys;
  }

  // ---------------------------------------------------------------- decimal numbers

  function DigitChar(d: nat): (c: char)
    requires d < 10
    ensures Text.IsDigit(c) && c as int - '0' as int == d
  {
    ('0' as int + d) as char
  }

  /** `str(n)` */
  function NatToString(n: nat): (s: string)
    ensures |s| >= 1 && forall i :: 0 <= i < |s| ==> Text.IsDigit(s[i])
    ensures s[0] == '0' ==> n == 0 && |s| == 1
  {
    if n < 10 then [DigitChar(n)] else NatToString(n / 10) + [DigitChar(n % 10)]
  }

  /** `int(s)` on a string of digits. */
  function DecimalValue(s: string): nat
    requires forall i :: 0 <= i < |s| ==> Text.IsDigit(s[i])
  {
    if s == [] then 0
    else
      assert Text.IsDigit(s[|s| - 1]);
      DecimalValue(s[..|s| - 1]) * 10 + (s[|s| - 1] as int - '0' as int)
  }

  /** Reading back a printed number gives the number. */
  lemma {:induction false} DecimalOfNat(n: nat)
    ensures DecimalValue(NatToString(n)) == n
  {
    var s := NatToString(n);
    if n >= 10 {
      DecimalOfNat(n / 10);
      assert s[..|s| - 1] == NatToString(n / 10);
    }
  }

  // ---------------------------------------------------------------- viewing

  /** What `view_passwords` decides to show. */
  datatype Report = NoPasswordsStored | NoResults(search: string) | Listed(total: nat, accounts: seq<string>, showPasswords: bool)

  const Rule: string := "=========================\n"

  /**
   * The count is of the whole vault, taken before any search; a search that
   * keeps nothing answers "No results"; otherwise the kept accounts in
   * sorted order, with or without their passwords.
   */
  function ReportOf(storage: Vault.Store, searchAnswer: string, search: string, showAnswer: string): (v: Report)
    ensures v == NoPasswordsStored <==> storage == map[]
    ensures v.NoResults? <==> storage != map[] && Text.Lower(searchAnswer) == "yes" && Vault.Matching(storage, search) == {}
    ensures v.NoResults? ==> v.search == search
    ensures v.Listed? ==> v.total == |storage| && Sorting.StrictlySorted(v.accounts)
    ensures v.Listed? ==> forall k :: k in v.accounts <==>
      k in storage && (Text.Lower(searchAnswer) == "yes" ==> Vault.Matches(k, search))
    ensures v.Listed? ==> v.showPasswords == (Text.Lower(showAnswer) == "yes")
  {
    if storage == map[] then NoPasswordsStored
    else
      var searching := Text.Lower(searchAnswer) == "yes";
      if searching && Vault.Matching(storage, search) == {} then NoResults(search)
      else
        var accounts := if searching then Vault.Results(storage, search) else Sorting.SortedKeys(storage.Keys);
        Listed(|storage|, accounts, Text.Lower(showAnswer) == "yes")
  }

  /** `"{i}) {acc} : {password}"` or `"{i}) {acc}"`; `None` where decoding the password raises. */
  function RowLine(storage: Vault.Store, accounts: seq<string>, show: bool, i: nat): Option<string>
    requires i < |accounts| && accounts[i] in storage
  {
    var front := NatToString(i + 1) + ") " + accounts[i];
    if !show then Some(front + "\n")
    else
      match Secret.Reveal(storage[accounts[i]])
      case None => None
      case Some(password) => Some(front + " : " + password + "\n")
  }

  /** The lines for the first `n` accounts; `None` once one of them raises. */
  function RowLines(storage: Vault.Store, accounts: seq<string>, show: bool, n: nat): Option<string>
    requires n <= |accounts| && forall i :: 0 <= i < |accounts| ==> accounts[i] in storage
  {
    if n == 0 then Some("")
    else
      match RowLines(storage, accounts, show, n - 1)
      case None => None
      case Some(text) =>
        match RowLine(storage, accounts, show, n - 1)
        case None => None
        case Some(line) => Some(text + line)
  }

  function Heading(total: nat, show: bool): string
  {
    "Total passwords: " + NatToString(total) + "\n" + Rule + (if show then "Stored Passwords:\n" else "Accounts List:\n")
  }

  /** The text `view_passwords` returns; `None` where it raises. */
  function Render(storage: Vault.Store, v: Report): Option<string>
    requires v.Listed? ==> forall i :: 0 <= i < |v.accounts| ==> v.accounts[i] in storage
  {
    match v
    case NoPasswordsStored => Some("No passwords stored.")
    case NoResults(search) => Some("No results found for '" + search + "'.")
    case Listed(total, accounts, show) =>
      match RowLines(storage, accounts, show, |accounts|)
      case None => None
      case Some(body) => Some(Heading(total, show) + body)
  }

  /** `view_passwords`, building its text line by line. */
  method ViewPasswords(storage: Vault.Store, searchAnswer: string, search: string, showAnswer: string) returns (text: Option<string>)
    ensures text == Render(storage, ReportOf(storage, searchAnswer, search, showAnswer))
  {
    if storage == map[] {
      return Some("No passwords stored.");
    }
    var accounts := Sorting.SortedKeys(storage.Keys);
    var result := "Total passwords: " + NatToString(|accounts|) + "\n";
    result := result + Rule;
    if Text.Lower(searchAnswer) == "yes" {
      var filtered := Vault.Matching(storage, search);
      accounts := Vault.Results(storage, search);
      if filtered == {} {
        return Some("No results found for '" + search + "'.");
      }
    }
    var show := Text.Lower(showAnswer) == "yes";
    if show {
      result := result + "Stored Passwords:\n";
    } else {
      result := result + "Accounts List:\n";
    }
    assert result == Heading(|storage|, show);
    text := AppendRows(result, storage, accounts, show);
  }

  /** The loop of `view_passwords` that appends one line per account to `heading`; `None` where decoding raises. */
  method AppendRows(heading: string, storage: Vault.Store, accounts: seq<string>, show: bool) returns (text: Option<string>)
    requires forall i :: 0 <= i < |accounts| ==> accounts[i] in storage
    ensures RowLines(storage, accounts, show, |accounts|).None? ==> text == None
    ensures RowLines(storage, accounts, show, |accounts|).Some? ==>
      text == Some(heading + RowLines(storage, accounts, show, |accounts|).value)
  {
    var result := heading;
    ghost var body := "";
    assert result == heading + body;
    for i := 0 to |accounts|
      invariant RowLines(storage, accounts, show, i) == Some(body)
      invariant result == heading + body
    {
      var line := NatToString(i + 1) + ") " + accounts[i];
      if show {
        var password := Secret.Reveal(storage[accounts[i]]);
        if password.None? {
          RowLinesStep(storage, accounts, show, i);
          NoneStaysNone(storage, accounts, show, i + 1, |accounts|);
          return None;
        }
        line := line + " : " + password.value + "\n";
      } else {
        line := line + "\n";
      }
      assert RowLine(storage, accounts, show, i) == Some(line);
      RowLinesStep(storage, accounts, show, i);
      AppendAssoc(heading, body, line);
      result := result + line;
      body := body + line;
    }
    text := Some(result);
  }

  lemma RowLinesStep(storage: Vault.Store, accounts: seq<string>, show: bool, i: nat)
    requires i < |accounts| && forall i :: 0 <= i < |accounts| ==> accounts[i] in storage
    requires RowLines(storage, accounts, show, i).Some?
    ensures RowLine(storage, accounts, show, i).None? ==> RowLines(storage, accounts, show, i + 1).None?
    ensures RowLine(storage, accounts, show, i).Some? ==>
      RowLines(storage, accounts, show, i + 1) == Some(RowLines(storage, accounts, show, i).value + RowLine(storage, accounts, show, i).value)
  {
  }

  lemma AppendAssoc(a: string, b: string, c: string)
    ensures (a + b) + c == a + (b + c)
  {
  }

  /** Once a row raises, so does the whole listing. */
  lemma {:induction false} NoneStaysNone(storage: Vault.Store, accounts: seq<string>, show: bool, n: nat, m: nat)
    requires n <= m <= |accounts| && forall i :: 0 <= i < |accounts| ==> accounts[i] in storage
    requires RowLines(storage, accounts, show, n).None?
    ensures RowLines(storage, accounts, show, m).None?
    decreases m - n
  {
    if n < m {
      RowLinesNoneStep(storage, accounts, show, n);
      NoneStaysNone(storage, accounts, show, n + 1, m);
    }
  }

  lemma RowLinesNoneStep(storage: Vault.Store, accounts: seq<string>, show: bool, n: nat)
    requires n < |accounts| && forall i :: 0 <= i < |accounts| ==> accounts[i] in storage
    requires RowLines(storage, accounts, show, n).None?
    ensures RowLines(storage, accounts, show, n + 1).None?
  {
  }

  /** Listing only the names never raises. */
  lemma {:induction false} NamesNeverRaise(storage: Vault.Store, accounts: seq<string>, n: nat)
    requires n <= |accounts| && forall i :: 0 <= i < |accounts| ==> accounts[i] in storage
    ensures RowLines(storage, accounts, false, n).Some?
  {
    if n > 0 {
      NamesNeverRaise(storage, accounts, n - 1);
    }
  }

  /** When every entry was written by the vault, showing passwords never raises either. */
  lemma {:induction false} RevealableNeverRaises(storage: Vault.Store, accounts: seq<string>, show: bool, n: nat)
    requires n <= |accounts| && forall i :: 0 <= i < |accounts| ==> accounts[i] in storage
    requires Vault.Revealable(storage)
    ensures RowLines(storage, accounts, show, n).Some?
  {
    if n > 0 {
      RevealableNeverRaises(storage, accounts, show, n - 1);
      assert Secret.Reveal(storage[accounts[n - 1]]).Some?;
    }
  }

  /** `view_passwords` raises only when it shows passwords and one of the listed entries does not decode. */
  lemma ViewRaisesOnlyOnBadEntry(storage: Vault.Store, searchAnswer: string, search: string, showAnswer: string)
    requires Text.Lower(showAnswer) != "yes" || Vault.Revealable(storage)
    ensures Render(storage, ReportOf(storage, searchAnswer, search, showAnswer)).Some?
  {
    var v := ReportOf(storage, searchAnswer, search, showAnswer);
    if v.Listed? {
      if v.showPasswords {
        RevealableNeverRaises(storage, v.accounts, true, |v.accounts|);
      } else {
        NamesNeverRaise(storage, v.accounts, |v.accounts|);
      }
    }
  }
}
