/**
 * The web front end's session: whether the user is logged in, the vault in
 * memory, and the two files it reads and writes (`master_password.txt` and
 * `app_passwords.txt`, `None` while a file does not exist). Each handler is
 * one button press with the values in the form at that moment.
 */
module Web {
  import opened Wrappers
  import Text
  import Strength
  import Secret
  import Sorting
  import Vault
  import StoreFile

  datatype CreateOutcome = EmptyMaster | MasterCreated(strength: Strength.Tier)
  datatype LoginOutcome = NoMasterYet | LoggedIn | WrongPassword
  datatype AddOutcome = MissingFields | Added(strength: Strength.Tier)
  datatype UpdateOutcome = NoAccountsToUpdate | EmptyPassword | TooWeak | Updated(strength: Strength.Tier)
  datatype DeleteOutcome = NoAccountsToDelete | Deleted

  /** What a store file holds once loaded by `load_passwords`. */
  function LoadedStore(file: Option<string>): Vault.Store
  {
    if file.None? then map[] else StoreFile.FoldFirstColon(StoreFile.Lines(file.value))
  }

  class Session {
    var authenticated: bool
    var storage: Vault.Store
    var master: Option<string>
    var storeFile: Option<string>

    /** No one is let in before a master password exists. */
    ghost predicate Valid()
      reads this
    {
      authenticated ==> master.Some?
    }

    /** A fresh session: not logged in, the vault loaded from the store file. */
    constructor (master: Option<string>, storeFile: Option<string>)
      ensures Valid() && !authenticated
      ensures this.master == master && this.storeFile == storeFile
      ensures storage == LoadedStore(storeFile)
    {
      var loaded := StoreFile.LoadFirstColon(storeFile);
      authenticated := false;
      this.master := master;
      this.storeFile := storeFile;
      storage := loaded;
    }

    /** `create_master_password`: an empty password is refused; any other is written, encoded, and logs the user in. */
    method CreateMasterPassword(newPassword: string) returns (outcome: CreateOutcome)
      requires Valid()
      modifies this
      ensures Valid()
      ensures newPassword == "" ==> outcome == EmptyMaster && unchanged(this)
      ensures newPassword != "" ==>
        && outcome == MasterCreated(Strength.Evaluate(newPassword).strength)
        && master == Some(Secret.EncodeSecret(newPassword)) && authenticated
        && storage == old(storage) && storeFile == old(storeFile)
    {
      if newPassword == "" {
        return EmptyMaster;
      }
      var evaluation := Strength.Evaluate(newPassword);
      master := Some(Secret.EncodeSecret(newPassword));
      authenticated := true;
      outcome := MasterCreated(evaluation.strength);
    }

    /**
     * `login_screen`: without a master password file the creation screen
     * shows instead; otherwise the encoded candidate is compared with the
     * stripped file content, and a match logs in and reloads the vault.
     */
    method Login(password: string) returns (outcome: LoginOutcome)
      requires Valid()
      modifies this
      ensures Valid()
      ensures master == old(master) && storeFile == old(storeFile)
      ensures old(master).None? ==> outcome == NoMasterYet && unchanged(this)
      ensures old(master).Some? && Secret.EncodeSecret(password) == Text.Strip(old(master).value) ==>
        outcome == LoggedIn && authenticated && storage == LoadedStore(storeFile)
      ensures old(master).Some? && Secret.EncodeSecret(password) != Text.Strip(old(master).value) ==>
        outcome == WrongPassword && unchanged(this)
    {
      if master.None? {
        return NoMasterYet;
      }
      var stored := Text.Strip(master.value);
      if Secret.EncodeSecret(password) == stored {
        authenticated := true;
        storage := StoreFile.LoadFirstColon(storeFile);
        outcome := LoggedIn;
      } else {
        outcome := WrongPassword;
      }
    }

    /** `add_password_ui`: the account name is title-cased; an empty name or password changes nothing. */
    method AddPassword(accountInput: string, password: string) returns (outcome: AddOutcome)
      requires Valid()
      modifies this
      ensures Valid()
      ensures authenticated == old(authenticated) && master == old(master) && storeFile == old(storeFile)
      ensures Text.Title(accountInput) == "" || password == "" ==> outcome == MissingFields && storage == old(storage)
      ensures Text.Title(accountInput) != "" && password != "" ==>
        && outcome == Added(Strength.Evaluate(password).strength)
        && storage == Vault.Put(old(storage), Text.Title(accountInput), password)
    {
      var account := Text.Title(accountInput);
      if account == "" || password == "" {
        return MissingFields;
      }
      var evaluation := Strength.Evaluate(password);
      storage := Vault.Put(storage, account, password);
      outcome := Added(evaluation.strength);
    }

    /**
     * `update_password_ui`: `selected` is the account chosen in the list of
     * stored accounts. An empty or `Weak` password changes nothing.
     */
    method UpdatePassword(selected: string, newPassword: string) returns (outcome: UpdateOutcome)
      requires Valid()
      requires storage != map[] ==> selected in storage
      modifies this
      ensures Valid()
      ensures authenticated == old(authenticated) && master == old(master) && storeFile == old(storeFile)
      ensures old(storage) == map[] ==> outcome == NoAccountsToUpdate && storage == old(storage)
      ensures old(storage) != map[] && newPassword == "" ==> outcome == EmptyPassword && storage == old(storage)
      ensures old(storage) != map[] && newPassword != "" && Strength.Evaluate(newPassword).strength == Strength.Weak ==>
        outcome == TooWeak && storage == old(storage)
      ensures old(storage) != map[] && newPassword != "" && Strength.Evaluate(newPassword).strength != Strength.Weak ==>
        && outcome == Updated(Strength.Evaluate(newPassword).strength)
        && storage == Vault.Put(old(storage), selected, newPassword)
    {
      if storage == map[] {
        return NoAccountsToUpdate;
      }
      if newPassword == "" {
        return EmptyPassword;
      }
      var evaluation := Strength.Evaluate(newPassword);
      if evaluation.strength == Strength.Weak {
        return TooWeak;
      }
      storage := Vault.Put(storage, selected, newPassword);
      outcome := Updated(evaluation.strength);
    }

    /** `delete_password_ui`: removes the account chosen in the list of stored accounts. */
    method DeletePassword(selected: string) returns (outcome: DeleteOutcome)
      requires Valid()
      requires storage != map[] ==> selected in storage
      modifies this
      ensures Valid()
      ensures authenticated == old(authenticated) && master == old(master) && storeFile == old(storeFile)
      ensures old(storage) == map[] ==> outcome == NoAccountsToDelete && storage == old(storage)
      ensures old(storage) != map[] ==> outcome == Deleted && storage == Vault.Remove(old(storage), selected)
    {
      if storage == map[] {
        return NoAccountsToDelete;
      }
      storage := Vault.Remove(storage, selected);
      outcome := Deleted;
    }

    /** The sidebar's "Save Changes": the store file is rewritten from the vault, in the dictionary's order `order`. */
    method SaveChanges(order: seq<string>)
      requires Valid()
      requires StoreFile.IsEnumeration(storage, order)
      modifies this
      ensures Valid()
      ensures authenticated == old(authenticated) && master == old(master) && storage == old(storage)
      ensures storeFile == Some(StoreFile.Concat(StoreFile.EntryLines(storage, order)))
    {
      var file := StoreFile.Save(storage, order);
      storeFile := Some(file);
    }
  }

  // ---------------------------------------------------------------- what the gate promises

  /**
   * A master file written by `create_master_password` lets in exactly the
   * password it was made from, and so does one that gained surrounding white
   * space, since the stored text is stripped before the comparison.
   */
  lemma GateSound(created: string, candidate: string, pre: string, post: string)
    requires forall k :: 0 <= k < |pre| ==> Text.IsSpace(pre[k])
    requires forall k :: 0 <= k < |post| ==> Text.IsSpace(post[k])
    ensures Secret.EncodeSecret(candidate) == Text.Strip(pre + Secret.EncodeSecret(created) + post) <==> candidate == created
  {
    var e := Secret.EncodeSecret(created);
    Secret.EncodeSecretPlain(created);
    Secret.EncodeSecretInjective(candidate, created);
    if e == [] {
      Secret.RevealEncode(created);
      Text.StripPadded(pre + post, [], []);
      assert pre + e + post == pre + post + [] + [];
      Secret.EncodeSecretPlain(candidate);
    } else {
      assert !Text.IsSpace(e[0]) && !Text.IsSpace(e[|e| - 1]);
      Text.StripPadded(pre, e, post);
    }
  }

  // ---------------------------------------------------------------- viewing

  /** A password in the listing: hidden behind the mask, shown, or one whose decoding raises. */
  datatype Display = Masked | Shown(password: string) | Undecodable
  datatype Row = Row(number: nat, account: string, display: Display)
  datatype View = NoPasswordsStored | NoResults(query: string) | Listing(total: nat, rows: seq<Row>)

  function DisplayOf(encoded: string, show: bool): (d: Display)
    ensures !show <==> d == Masked
    ensures d.Shown? <==> show && Secret.Reveal(encoded).Some?
    ensures d.Shown? ==> Secret.Reveal(encoded) == Some(d.password)
  {
    if !show then Masked
    else
      match Secret.Reveal(encoded)
      case None => Undecodable
      case Some(pw) => Shown(pw)
  }

  /**
   * `view_passwords_ui`: an empty vault and a search that keeps nothing are
   * told apart; otherwise the kept accounts are listed in sorted order,
   * numbered from 1, with their count.
   */
  function ViewPasswords(storage: Vault.Store, query: string, show: bool): (v: View)
    ensures v == NoPasswordsStored <==> storage == map[]
    ensures v.NoResults? <==> storage != map[] && Vault.Matching(storage, query) == {}
    ensures v.NoResults? ==> v.query == query
    ensures v.Listing? ==> v.total == |v.rows| == |Vault.Matching(storage, query)|
    ensures v.Listing? ==> ListsExactly(storage, query, show, v.rows)
  {
    if storage == map[] then NoPasswordsStored
    else
      var accounts := Vault.Results(storage, query);
      ResultsFacts(storage, query);
      if accounts == [] then NoResults(query)
      else
        RowsListExactly(storage, query, show);
        Listing(|accounts|, Rows(storage, accounts, show))
  }

  lemma ResultsFacts(storage: Vault.Store, query: string)
    ensures Vault.Results(storage, query) == [] <==> Vault.Matching(storage, query) == {}
    ensures forall i :: 0 <= i < |Vault.Results(storage, query)| ==> Vault.Results(storage, query)[i] in storage
  {
    var accounts := Vault.Results(storage, query);
    assert forall k :: k in Vault.Matching(storage, query) ==> k in accounts;
  }

  /**
   * The rows are numbered from 1, in strictly increasing order of account;
   * each is a matching account with its display, and every matching account
   * has a row.
   */
  ghost predicate ListsExactly(storage: Vault.Store, query: string, show: bool, rows: seq<Row>)
  {
    && (forall i :: 0 <= i < |rows| ==>
      && rows[i].number == i + 1
      && rows[i].account in storage && Vault.Matches(rows[i].account, query)
      && rows[i].display == DisplayOf(storage[rows[i].account], show))
    && (forall i, j :: 0 <= i < j < |rows| ==> Sorting.Less(rows[i].account, rows[j].account))
    && (forall k :: k in storage && Vault.Matches(k, query) ==> exists i :: 0 <= i < |rows| && rows[i].account == k)
  }

  /** The numbered rows for `accounts`, in that order. */
  function Rows(storage: Vault.Store, accounts: seq<string>, show: bool): (rows: seq<Row>)
    requires forall i :: 0 <= i < |accounts| ==> accounts[i] in storage
    ensures |rows| == |accounts|
    ensures forall i :: 0 <= i < |rows| ==> rows[i] == Row(i + 1, accounts[i], DisplayOf(storage[accounts[i]], show))
  {
    seq(|accounts|, i requires 0 <= i < |accounts| => Row(i + 1, accounts[i], DisplayOf(storage[accounts[i]], show)))
  }

  lemma RowsListExactly(storage: Vault.Store, query: string, show: bool)
    ensures ListsExactly(storage, query, show, Rows(storage, Vault.Results(storage, query), show))
  {
    var accounts := Vault.Results(storage, query);
    var rows := Rows(storage, accounts, show);
    forall k | k in storage && Vault.Matches(k, query)
      ensures exists i :: 0 <= i < |rows| && rows[i].account == k
    {
      var i := IndexOf(accounts, k);
      assert rows[i].account == k;
    }
  }

  function IndexOf(s: seq<string>, x: string): (i: nat)
    requires x in s
    ensures i < |s| && s[i] == x
  {
    if s[0] == x then 0 else 1 + IndexOf(s[1..], x)
  }

  /** Without a search term every account is listed. */
  lemma EmptyQueryListsAll(storage: Vault.Store, show: bool)
    requires storage != map[]
    ensures ViewPasswords(storage, "", show).Listing?
    ensures ViewPasswords(storage, "", show).total == |storage|
  {
    Vault.EmptyQueryMatchesAll(storage);
    assert storage.Keys != {} by {
      var k :| k in storage;
    }
  }

  /** An account just added is found by searching for its name, with its password when shown. */
  lemma AddedIsListed(storage: Vault.Store, account: string, password: string)
    ensures var v := ViewPasswords(Vault.Put(storage, account, password), account, true);
      v.Listing? && exists i :: 0 <= i < |v.rows| && v.rows[i] == Row(i + 1, account, Shown(password))
  {
    var s := Vault.Put(storage, account, password);
    Vault.ExactNameMatches(account);
    assert account in Vault.Matching(s, account);
  }
}
