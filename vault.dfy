/**
 * What both front ends do to the store in memory, and how they search it.
 * An entry maps an account name to the encoding of its password; writing
 * an entry replaces any earlier one for the same account.
 */
module Vault {
  import opened Wrappers
  import Text
  import Secret
  import Sorting

  /** The vault in memory: account name to encoded password. */
  type Store = map<string, string>

  /** `storage[account] = b64(password)`: the account now reveals `password`, and no other entry changes. */
  function Put(storage: Store, account: string, password: string): (r: Store)
    ensures account in r && Secret.Reveal(r[account]) == Some(password)
    ensures r.Keys == storage.Keys + {account}
    ensures forall k :: k in storage && k != account ==> r[k] == storage[k]
  {
    Secret.RevealEncode(password);
    storage[account := Secret.EncodeSecret(password)]
  }

  /** `del storage[account]`: that account is gone and no other entry changes. */
  function Remove(storage: Store, account: string): (r: Store)
    ensures r.Keys == storage.Keys - {account}
    ensures forall k :: k in r ==> r[k] == storage[k]
  {
    storage - {account}
  }

  /** Every entry can be shown: its text decodes as Base64 and then as UTF-8. */
  ghost predicate Revealable(storage: Store)
  {
    forall k :: k in storage ==> Secret.Reveal(storage[k]).Some?
  }

  /** Adding, updating and deleting keep every entry showable. */
  lemma PutRemoveKeepRevealable(storage: Store, account: string, password: string)
    requires Revealable(storage)
    ensures Revealable(Put(storage, account, password))
    ensures Revealable(Remove(storage, account))
  {
  }

  /** A new entry that replaces another one for the same name leaves the store as if only the last were written. */
  lemma PutOverwrites(storage: Store, account: string, first: string, second: string)
    ensures Put(Put(storage, account, first), account, second) == Put(storage, account, second)
  {
  }

  /** Deleting what was just added gives back the store without that account. */
  lemma RemovePut(storage: Store, account: string, password: string)
    ensures Remove(Put(storage, account, password), account) == Remove(storage, account)
  {
  }

  // ---------------------------------------------------------------- search

  /** `query.lower() in acc.lower()` */
  predicate Matches(account: string, query: string)
  {
    Text.Contains(Text.Lower(account), Text.Lower(query))
  }

  /** The accounts a search keeps. */
  function Matching(storage: Store, query: string): set<string>
  {
    set k | k in storage && Matches(k, query)
  }

  /** The accounts a search keeps, in the order `sorted` puts them. */
  function Results(storage: Store, query: string): (r: seq<string>)
    ensures Sorting.StrictlySorted(r)
    ensures forall k :: k in r <==> k in storage && Matches(k, query)
    ensures |r| == |Matching(storage, query)| <= |storage|
  {
    Sorting.SubsetSize(Matching(storage, query), storage.Keys);
    Sorting.SortedKeys(Matching(storage, query))
  }

  /** The empty query keeps every account. */
  lemma EmptyQueryMatchesAll(storage: Store)
    ensures Matching(storage, "") == storage.Keys
  {
    forall k | k in storage
      ensures Matches(k, "")
    {
      Text.ContainsEmpty(Text.Lower(k));
    }
  }

  /** The search ignores case on both sides. */
  lemma MatchesIgnoresCase(account: string, query: string)
    ensures Matches(Text.Lower(account), query) == Matches(account, query)
    ensures Matches(account, Text.Lower(query)) == Matches(account, query)
    ensures Matches(Text.Title(account), query) == Matches(account, query)
  {
    Text.LowerIdempotent(account);
    Text.LowerIdempotent(query);
    Text.LowerOfTitle(account);
  }

  /** A query is found in an account name that is the query itself. */
  lemma ExactNameMatches(account: string)
    ensures Matches(account, account)
  {
    assert Text.OccursAt(Text.Lower(account), Text.Lower(account), 0);
  }
}
