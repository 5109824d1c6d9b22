/**
 * The store file `app_passwords.txt`: one `account:encoded` line per entry.
 * Both front ends write it the same way; they read it differently. The web
 * front end splits each line at its first `:`; the command-line front end
 * splits at every `:` and unpacks two fields, which raises on a line with
 * two or more colons. Either skips a line without `:` and lets a later line
 * for an account overwrite an earlier one. A missing file is an empty store.
 */
module StoreFile {
  import opened Wrappers
  import Text
  import Sorting
  import Vault
  import Secret

  function Concat(parts: seq<string>): string
  {
    if parts == [] then "" else parts[0] + Concat(parts[1..])
  }

  /** `for line in f`: each line with its `\n`; a last line without one is kept as it is. */
  function Lines(text: string): seq<string>
    decreases |text|
  {
    if text == "" then []
    else if '\n' !in text then [text]
    else
      var (a, b) := Text.SplitFirst(text, '\n');
      [a + "\n"] + Lines(b)
  }

  /** The lines put back together are the text; only the last may lack its `\n`, and none holds another. */
  lemma LinesSpec(text: string)
    ensures Concat(Lines(text)) == text
    ensures forall i :: 0 <= i < |Lines(text)| ==> Lines(text)[i] != ""
    ensures forall i :: 0 <= i < |Lines(text)| ==> '\n' !in Lines(text)[i][..|Lines(text)[i]| - 1]
    ensures forall i :: 0 <= i < |Lines(text)| - 1 ==> Lines(text)[i][|Lines(text)[i]| - 1] == '\n'
  {
    LinesConcat(text);
    LinesShape(text);
  }

  lemma {:induction false} LinesConcat(text: string)
    ensures Concat(Lines(text)) == text
    decreases |text|
  {
    if text != "" && '\n' in text {
      var (a, b) := Text.SplitFirst(text, '\n');
      LinesConcat(b);
      assert Lines(text)[1..] == Lines(b);
    }
  }

  /** No line is empty, none holds a `\n` before its end, and all but the last end in one. */
  predicate WellCut(lines: seq<string>)
  {
    && (forall i :: 0 <= i < |lines| ==> lines[i] != "")
    && (forall i :: 0 <= i < |lines| ==> '\n' !in lines[i][..|lines[i]| - 1])
    && (forall i :: 0 <= i < |lines| - 1 ==> lines[i][|lines[i]| - 1] == '\n')
  }

  lemma {:induction false} LinesShape(text: string)
    ensures WellCut(Lines(text))
    decreases |text|
  {
    if text != "" && '\n' in text {
      var (a, b) := Text.SplitFirst(text, '\n');
      LinesShape(b);
      ConsWellCut(a, Lines(b));
    }
  }

  /** A line ended by its `\n` in front of well-cut lines keeps them well cut. */
  lemma ConsWellCut(a: string, rest: seq<string>)
    requires '\n' !in a && WellCut(rest)
    ensures WellCut([a + "\n"] + rest)
  {
    var lines := [a + "\n"] + rest;
    assert (a + "\n")[..|a + "\n"| - 1] == a;
    assert forall i :: 1 <= i < |lines| ==> lines[i] == rest[i - 1];
  }

  // ---------------------------------------------------------------- parsing a line

  /** The web front end: `line.strip().split(":", 1)` on a line that contains `:`. */
  function ParseLineFirstColon(line: string): Option<(string, string)>
  {
    if ':' !in line then None
    else
      StripKeepsCount(line, ':');
      Some(Text.SplitFirst(Text.Strip(line), ':'))
  }

  /** A line is skipped exactly when it has no `:`; otherwise its stripped text is cut at the first `:`. */
  lemma ParseLineFirstColonSpec(line: string)
    ensures ParseLineFirstColon(line).None? <==> ':' !in line
    ensures ParseLineFirstColon(line).Some? ==>
      var (account, encoded) := ParseLineFirstColon(line).value;
      Text.Strip(line) == account + ":" + encoded && ':' !in account
  {
  }

  /** What the command-line front end makes of one line. */
  datatype LineResult = Skipped | Entry(account: string, encoded: string) | TooManyColons

  /** The command-line front end: `account, encoded_pw = line.strip().split(":")` on a line that contains `:`. */
  function ParseLineEveryColon(line: string): (r: LineResult)
  {
    if ':' !in line then Skipped
    else
      var parts := Text.Split(Text.Strip(line), ':');
      if |parts| != 2 then TooManyColons else Entry(parts[0], parts[1])
  }

  /** The command-line parse raises exactly on the lines with two or more colons, and agrees with the web parse elsewhere. */
  lemma ParseLineEveryColonSpec(line: string)
    ensures ParseLineEveryColon(line) == TooManyColons <==> Text.Count(line, ':') >= 2
    ensures ParseLineEveryColon(line) == Skipped <==> ParseLineFirstColon(line).None?
    ensures ParseLineEveryColon(line).Entry? ==>
      ParseLineFirstColon(line) == Some((ParseLineEveryColon(line).account, ParseLineEveryColon(line).encoded))
  {
    StripKeepsCount(line, ':');
    assert ':' in line <==> Text.Count(line, ':') >= 1;
    if ':' in line {
      var t := Text.Strip(line);
      var parts := Text.Split(t, ':');
      Text.SplitSpec(t, ':');
      if |parts| == 2 {
        assert Text.Join(parts, ':') == parts[0] + [':'] + parts[1];
        SplitFirstUnique(t, ':', parts[0], parts[1]);
      }
    }
  }

  /** Stripping white space keeps every occurrence of a character that is not white space. */
  lemma StripKeepsCount(s: string, c: char)
    requires !Text.IsSpace(c)
    ensures Text.Count(Text.Strip(s), c) == Text.Count(s, c)
    ensures c in s <==> c in Text.Strip(s)
  {
    var i, j := Text.StripSpec(s);
    Text.CountMiddle(s, i, j, c);
    Text.CountPositive(s, c);
    Text.CountPositive(Text.Strip(s), c);
  }

  /** `split(sep, 1)` cuts at the first separator and nowhere else. */
  lemma {:induction false} SplitFirstUnique(s: string, sep: char, a: string, b: string)
    requires s == a + [sep] + b && sep !in a
    ensures Text.SplitFirst(s, sep) == (a, b)
  {
    if a != [] {
      assert s[1..] == a[1..] + [sep] + b;
      SplitFirstUnique(s[1..], sep, a[1..], b);
      assert a == [a[0]] + a[1..];
    }
  }

  // ---------------------------------------------------------------- parsing a file

  /** The web front end's loop over the lines: each parsed line sets its account, later lines last. */
  function FoldFirstColon(lines: seq<string>): Vault.Store
  {
    if lines == [] then map[]
    else
      var m := FoldFirstColon(lines[..|lines| - 1]);
      match ParseLineFirstColon(lines[|lines| - 1])
      case None => m
      case Some((account, encoded)) => m[account := encoded]
  }

  /** What the command-line front end's load ends in: a store, or the `ValueError` of the first bad line. */
  datatype Loaded = Loaded(store: Vault.Store) | Raises(line: nat)

  function FoldEveryColon(lines: seq<string>): Loaded
  {
    if lines == [] then Loaded(map[])
    else
      match FoldEveryColon(lines[..|lines| - 1])
      case Raises(k) => Raises(k)
      case Loaded(m) =>
        match ParseLineEveryColon(lines[|lines| - 1])
        case Skipped => Loaded(m)
        case Entry(account, encoded) => Loaded(m[account := encoded])
        case TooManyColons => Raises(|lines| - 1)
  }

  lemma FoldFirstColonSnoc(lines: seq<string>, i: nat)
    requires i < |lines|
    ensures FoldFirstColon(lines[..i + 1]) ==
      match ParseLineFirstColon(lines[i])
      case None => FoldFirstColon(lines[..i])
      case Some((account, encoded)) => FoldFirstColon(lines[..i])[account := encoded]
  {
    assert lines[..i + 1][..i] == lines[..i];
  }

  lemma FoldEveryColonSnoc(lines: seq<string>, i: nat)
    requires i < |lines|
    ensures FoldEveryColon(lines[..i + 1]) ==
      match FoldEveryColon(lines[..i])
      case Raises(k) => Raises(k)
      case Loaded(m) =>
        match ParseLineEveryColon(lines[i])
        case Skipped => Loaded(m)
        case Entry(account, encoded) => Loaded(m[account := encoded])
        case TooManyColons => Raises(i)
  {
    assert lines[..i + 1][..i] == lines[..i];
  }

  /** Once a line has raised, the lines after it are never read. */
  lemma {:induction false} RaisesPersists(lines: seq<string>, n: nat, k: nat)
    requires n <= |lines| && FoldEveryColon(lines[..n]) == Raises(k)
    ensures FoldEveryColon(lines[..|lines|]) == Raises(k)
    decreases |lines| - n
  {
    if n < |lines| {
      FoldEveryColonSnoc(lines, n);
      RaisesPersists(lines, n + 1, k);
    }
  }

  /** `load_passwords` of the web front end; `file` is the file's text, `None` when it does not exist. */
  method LoadFirstColon(file: Option<string>) returns (storage: Vault.Store)
    ensures file.None? ==> storage == map[]
    ensures file.Some? ==> storage == FoldFirstColon(Lines(file.value))
  {
    storage := map[];
    if file.Some? {
      var lines := Lines(file.value);
      for i := 0 to |lines|
        invariant storage == FoldFirstColon(lines[..i])
      {
        FoldFirstColonSnoc(lines, i);
        var line := lines[i];
        if ':' in line {
          var (account, encoded) := Text.SplitFirst(Text.Strip(line), ':');
          storage := storage[account := encoded];
        }
      }
      assert lines[..|lines|] == lines;
    }
  }

  /** `load_passwords` of the command-line front end. */
  method LoadEveryColon(file: Option<string>) returns (result: Loaded)
    ensures file.None? ==> result == Loaded(map[])
    ensures file.Some? ==> result == FoldEveryColon(Lines(file.value))
  {
    var storage: Vault.Store := map[];
    if file.Some? {
      var lines := Lines(file.value);
      for i := 0 to |lines|
        invariant FoldEveryColon(lines[..i]) == Loaded(storage)
      {
        FoldEveryColonSnoc(lines, i);
        var line := lines[i];
        if ':' in line {
          var parts := Text.Split(Text.Strip(line), ':');
          if |parts| != 2 {
            RaisesPersists(lines, i + 1, i);
            assert lines[..|lines|] == lines;
            return Raises(i);
          }
          storage := storage[parts[0] := parts[1]];
        }
      }
      assert lines[..|lines|] == lines;
    }
    result := Loaded(storage);
  }

  // ---------------------------------------------------------------- what loading promises

  /** The line has a `:` and the text before its first `:` is `account`. */
  predicate Names(line: string, account: string)
  {
    ParseLineFirstColon(line).Some? && ParseLineFirstColon(line).value.0 == account
  }

  /** An account is loaded exactly when some line with a `:` names it. */
  lemma FoldFirstColonKeys(lines: seq<string>, account: string)
    ensures account in FoldFirstColon(lines) <==> exists i :: 0 <= i < |lines| && Names(lines[i], account)
  {
    if account in FoldFirstColon(lines) {
      var i := FoldFirstColonNamer(lines, account);
    }
    forall i | 0 <= i < |lines| && Names(lines[i], account)
      ensures account in FoldFirstColon(lines)
    {
      FoldFirstColonNamed(lines, i, account);
    }
  }

  /** A loaded account has a line that names it. */
  lemma {:induction false} FoldFirstColonNamer(lines: seq<string>, account: string) returns (i: nat)
    requires account in FoldFirstColon(lines)
    ensures i < |lines| && Names(lines[i], account)
  {
    var init := lines[..|lines| - 1];
    FoldFirstColonKeysStep(lines, account);
    if Names(lines[|lines| - 1], account) {
      i := |lines| - 1;
    } else {
      i := FoldFirstColonNamer(init, account);
      assert init[i] == lines[i];
    }
  }

  /** A line that names an account loads it. */
  lemma {:induction false} FoldFirstColonNamed(lines: seq<string>, i: nat, account: string)
    requires i < |lines| && Names(lines[i], account)
    ensures account in FoldFirstColon(lines)
  {
    var init := lines[..|lines| - 1];
    FoldFirstColonKeysStep(lines, account);
    if i < |lines| - 1 {
      assert init[i] == lines[i];
      FoldFirstColonNamed(init, i, account);
    }
  }

  lemma FoldFirstColonKeysStep(lines: seq<string>, account: string)
    requires lines != []
    ensures account in FoldFirstColon(lines) <==>
      account in FoldFirstColon(lines[..|lines| - 1]) || Names(lines[|lines| - 1], account)
  {
  }

  /** The last line that names an account decides its value. */
  lemma {:induction false} FoldFirstColonLastWins(lines: seq<string>, i: nat)
    requires i < |lines| && ParseLineFirstColon(lines[i]).Some?
    requires forall j :: i < j < |lines| && ParseLineFirstColon(lines[j]).Some? ==>
      ParseLineFirstColon(lines[j]).value.0 != ParseLineFirstColon(lines[i]).value.0
    ensures ParseLineFirstColon(lines[i]).value.0 in FoldFirstColon(lines)
    ensures FoldFirstColon(lines)[ParseLineFirstColon(lines[i]).value.0] == ParseLineFirstColon(lines[i]).value.1
  {
    var init := lines[..|lines| - 1];
    var account := ParseLineFirstColon(lines[i]).value.0;
    FoldFirstColonValueStep(lines, account);
    if i < |lines| - 1 {
      assert init[i] == lines[i];
      assert !Names(lines[|lines| - 1], account);
      FoldFirstColonLastWins(init, i);
    }
  }

  lemma FoldFirstColonValueStep(lines: seq<string>, account: string)
    requires lines != []
    ensures Names(lines[|lines| - 1], account) ==>
      account in FoldFirstColon(lines) && FoldFirstColon(lines)[account] == ParseLineFirstColon(lines[|lines| - 1]).value.1
    ensures !Names(lines[|lines| - 1], account) && account in FoldFirstColon(lines[..|lines| - 1]) ==>
      account in FoldFirstColon(lines) && FoldFirstColon(lines)[account] == FoldFirstColon(lines[..|lines| - 1])[account]
  {
  }

  /** Where no line has two colons, the command-line load is the web load; otherwise it raises. */
  lemma FoldEveryColonSpec(lines: seq<string>)
    ensures FoldEveryColon(lines).Raises? <==> exists i :: 0 <= i < |lines| && Text.Count(lines[i], ':') >= 2
    ensures FoldEveryColon(lines).Loaded? ==> FoldEveryColon(lines).store == FoldFirstColon(lines)
  {
    FoldEveryColonRaises(lines);
    FoldEveryColonAgrees(lines);
  }

  /** Some line has two or more colons. */
  predicate Crowded(lines: seq<string>)
  {
    exists i :: 0 <= i < |lines| && Text.Count(lines[i], ':') >= 2
  }

  lemma {:induction false} FoldEveryColonRaises(lines: seq<string>)
    ensures FoldEveryColon(lines).Raises? <==> Crowded(lines)
  {
    if lines != [] {
      FoldEveryColonRaises(lines[..|lines| - 1]);
      ParseLineEveryColonSpec(lines[|lines| - 1]);
      CrowdedSnoc(lines);
    }
  }

  lemma CrowdedSnoc(lines: seq<string>)
    requires lines != []
    ensures Crowded(lines) <==> Crowded(lines[..|lines| - 1]) || Text.Count(lines[|lines| - 1], ':') >= 2
  {
    var init := lines[..|lines| - 1];
    assert forall i :: 0 <= i < |init| ==> init[i] == lines[i];
    if Crowded(lines) && Text.Count(lines[|lines| - 1], ':') < 2 {
      var i :| 0 <= i < |lines| && Text.Count(lines[i], ':') >= 2;
      assert i < |init| && Text.Count(init[i], ':') >= 2;
    }
  }

  lemma {:induction false} FoldEveryColonAgrees(lines: seq<string>)
    ensures FoldEveryColon(lines).Loaded? ==> FoldEveryColon(lines).store == FoldFirstColon(lines)
  {
    if lines != [] {
      FoldEveryColonAgrees(lines[..|lines| - 1]);
      ParseLineEveryColonSpec(lines[|lines| - 1]);
    }
  }

  // ---------------------------------------------------------------- saving

  /** One line of the store file. */
  function EntryLine(account: string, encoded: string): string
  {
    account + ":" + encoded + "\n"
  }

  /** The lines `save_passwords` writes for the accounts in `order`. */
  function EntryLines(storage: Vault.Store, order: seq<string>): (lines: seq<string>)
    requires forall i :: 0 <= i < |order| ==> order[i] in storage
    ensures |lines| == |order|
    ensures forall i :: 0 <= i < |order| ==> lines[i] == EntryLine(order[i], storage[order[i]])
  {
    seq(|order|, i requires 0 <= i < |order| => EntryLine(order[i], storage[order[i]]))
  }

  /** `order` lists each account of the store once: the dictionary's iteration order. */
  predicate IsEnumeration(storage: Vault.Store, order: seq<string>)
  {
    && |order| == |storage|
    && (forall i :: 0 <= i < |order| ==> order[i] in storage)
    && (forall i, j :: 0 <= i < j < |order| ==> order[i] != order[j])
  }

  /** `save_passwords`: the whole file, written afresh, one line per entry in iteration order. */
  method Save(storage: Vault.Store, order: seq<string>) returns (file: string)
    requires IsEnumeration(storage, order)
    ensures file == Concat(EntryLines(storage, order))
  {
    var lines := EntryLines(storage, order);
    file := "";
    for i := 0 to |order|
      invariant file == Concat(lines[..i])
    {
      ConcatSnoc(lines[..i], lines[i]);
      assert lines[..i + 1] == lines[..i] + [lines[i]];
      file := file + EntryLine(order[i], storage[order[i]]);
    }
    assert lines[..|order|] == lines;
  }

  lemma {:induction false} ConcatSnoc(parts: seq<string>, last: string)
    ensures Concat(parts + [last]) == Concat(parts) + last
  {
    if parts != [] {
      assert (parts + [last])[1..] == parts[1..] + [last];
      ConcatSnoc(parts[1..], last);
    } else {
      assert [last][1..] == [];
    }
  }

  // ---------------------------------------------------------------- round trip

  /** The conditions under which a store survives being saved and loaded by the web front end. */
  predicate Storable(storage: Vault.Store)
  {
    forall account :: account in storage ==>
      && ':' !in account && '\n' !in account && '\n' !in storage[account]
      && (account != [] ==> !Text.IsSpace(account[0]))
      && (storage[account] != [] ==> !Text.IsSpace(storage[account][|storage[account]| - 1]))
  }

  /** Reading back the saved text gives back exactly the saved lines. */
  lemma {:induction false} LinesOfEntries(lines: seq<string>)
    requires forall i :: 0 <= i < |lines| ==> |lines[i]| > 0 && lines[i][|lines[i]| - 1] == '\n'
    requires forall i :: 0 <= i < |lines| ==> '\n' !in lines[i][..|lines[i]| - 1]
    ensures Lines(Concat(lines)) == lines
  {
    if lines != [] {
      var first := lines[0];
      var body := first[..|first| - 1];
      var rest := Concat(lines[1..]);
      assert first == body + "\n";
      assert Concat(lines) == body + ['\n'] + rest;
      SplitFirstUnique(Concat(lines), '\n', body, rest);
      LinesOfEntries(lines[1..]);
      assert lines == [body + "\n"] + lines[1..];
    }
  }

  /** One saved entry is parsed back into its account and encoded password. */
  lemma ParseEntry(account: string, encoded: string)
    requires ':' !in account
    requires account != [] ==> !Text.IsSpace(account[0])
    requires encoded != [] ==> !Text.IsSpace(encoded[|encoded| - 1])
    ensures ParseLineFirstColon(EntryLine(account, encoded)) == Some((account, encoded))
  {
    var core := account + ":" + encoded;
    assert EntryLine(account, encoded) == "" + core + "\n";
    assert core[0] == if account == [] then ':' else account[0];
    assert core[|core| - 1] == if encoded == [] then ':' else encoded[|encoded| - 1];
    Text.StripPadded("", core, "\n");
    SplitFirstUnique(core, ':', account, encoded);
  }

  /** Loading the first `n` saved lines gives the entries of the first `n` accounts. */
  lemma {:induction false} FoldEntries(storage: Vault.Store, order: seq<string>, n: nat)
    requires IsEnumeration(storage, order) && Storable(storage) && n <= |order|
    ensures FoldFirstColon(EntryLines(storage, order)[..n]) == map k | k in order[..n] :: storage[k]
  {
    if n > 0 {
      var lines := EntryLines(storage, order);
      FoldFirstColonSnoc(lines, n - 1);
      FoldEntries(storage, order, n - 1);
      ParseEntry(order[n - 1], storage[order[n - 1]]);
      PrefixMapSnoc(storage, order, n);
    }
  }

  /** The entries of the first `n` accounts are those of the first `n - 1` and the `n`-th. */
  lemma PrefixMapSnoc(storage: Vault.Store, order: seq<string>, n: nat)
    requires 0 < n <= |order| && forall i :: 0 <= i < |order| ==> order[i] in storage
    ensures (map k | k in order[..n] :: storage[k]) ==
      (map k | k in order[..n - 1] :: storage[k])[order[n - 1] := storage[order[n - 1]]]
  {
    assert order[..n] == order[..n - 1] + [order[n - 1]];
  }

  /** Saving and then loading with the web front end gives back the same store. */
  lemma RoundTrip(storage: Vault.Store, order: seq<string>)
    requires IsEnumeration(storage, order) && Storable(storage)
    ensures FoldFirstColon(Lines(Concat(EntryLines(storage, order)))) == storage
  {
    var lines := EntryLines(storage, order);
    EntryLinesShape(storage, order);
    LinesOfEntries(lines);
    FoldEntries(storage, order, |order|);
    assert lines[..|order|] == lines;
    EnumerationImage(storage, order);
  }

  /** Every saved line ends in its only `\n`. */
  lemma EntryLinesShape(storage: Vault.Store, order: seq<string>)
    requires IsEnumeration(storage, order) && Storable(storage)
    ensures forall i :: 0 <= i < |order| ==>
      var line := EntryLines(storage, order)[i];
      |line| > 0 && line[|line| - 1] == '\n' && '\n' !in line[..|line| - 1]
  {
    forall i | 0 <= i < |order|
      ensures var line := EntryLines(storage, order)[i];
        |line| > 0 && line[|line| - 1] == '\n' && '\n' !in line[..|line| - 1]
    {
      EntryLineShape(order[i], storage[order[i]]);
    }
  }

  lemma EntryLineShape(account: string, encoded: string)
    requires '\n' !in account && '\n' !in encoded
    ensures var line := EntryLine(account, encoded);
      |line| > 0 && line[|line| - 1] == '\n' && '\n' !in line[..|line| - 1]
  {
    var line := EntryLine(account, encoded);
    assert line[..|line| - 1] == account + ":" + encoded;
  }

  /** The entries of all the accounts of an enumeration are the store. */
  lemma EnumerationImage(storage: Vault.Store, order: seq<string>)
    requires IsEnumeration(storage, order)
    ensures (map k | k in order[..|order|] :: storage[k]) == storage
  {
    EnumerationCovers(storage, order);
    assert order[..|order|] == order;
  }

  /** An enumeration names every account of the store. */
  lemma EnumerationCovers(storage: Vault.Store, order: seq<string>)
    requires IsEnumeration(storage, order)
    ensures forall k :: k in storage <==> k in order
  {
    var s := set i | 0 <= i < |order| :: order[i];
    InjectiveImageSize(order);
    forall k | k in storage
      ensures k in order
    {
      if k !in s {
        Sorting.SubsetSize(s, storage.Keys - {k});
        assert false;
      }
    }
  }

  lemma {:induction false} InjectiveImageSize(order: seq<string>)
    requires forall i, j :: 0 <= i < j < |order| ==> order[i] != order[j]
    ensures |set i | 0 <= i < |order| :: order[i]| == |order|
  {
    if order != [] {
      var init := order[..|order| - 1];
      InjectiveImageSize(init);
      var s := set i | 0 <= i < |init| :: init[i];
      assert (set i | 0 <= i < |order| :: order[i]) == s + {order[|order| - 1]};
    }
  }

  /** Saving and then loading with the command-line front end gives back the same store when no password encoding holds `:`. */
  lemma RoundTripEveryColon(storage: Vault.Store, order: seq<string>)
    requires IsEnumeration(storage, order) && Storable(storage)
    requires forall account :: account in storage ==> ':' !in storage[account]
    ensures FoldEveryColon(Lines(Concat(EntryLines(storage, order)))) == Loaded(storage)
  {
    var lines := EntryLines(storage, order);
    RoundTrip(storage, order);
    EntryLinesShape(storage, order);
    LinesOfEntries(lines);
    forall i | 0 <= i < |lines|
      ensures Text.Count(lines[i], ':') < 2
    {
      EntryLineColons(order[i], storage[order[i]]);
    }
    FoldEveryColonSpec(lines);
  }

  /** A saved line whose account and encoding have no `:` has exactly one. */
  lemma EntryLineColons(account: string, encoded: string)
    requires ':' !in account && ':' !in encoded
    ensures Text.Count(EntryLine(account, encoded), ':') == 1
  {
    assert multiset(EntryLine(account, encoded)) == multiset(account) + multiset{':'} + multiset(encoded) + multiset{'\n'};
  }

  /** Writing an entry through the vault keeps a store storable, as long as the account name is. */
  lemma PutKeepsStorable(storage: Vault.Store, account: string, password: string)
    requires Storable(storage)
    requires ':' !in account && '\n' !in account && (account != [] ==> !Text.IsSpace(account[0]))
    ensures Storable(Vault.Put(storage, account, password))
  {
    var r := Vault.Put(storage, account, password);
    Secret.EncodeSecretPlain(password);
    PlainEncoding(Secret.EncodeSecret(password));
    assert r[account] == Secret.EncodeSecret(password);
    forall k | k in r && k != account
      ensures r[k] == storage[k]
    {
    }
  }

  /** Text with neither `:` nor white space has no `\n` and does not end in white space. */
  lemma PlainEncoding(e: string)
    requires forall i :: 0 <= i < |e| ==> e[i] != ':' && !Text.IsSpace(e[i])
    ensures ':' !in e && '\n' !in e
    ensures e != [] ==> !Text.IsSpace(e[|e| - 1])
  {
    assert Text.IsSpace('\n');
  }

  /** Every encoding the vault writes is free of `:`, so the command-line load accepts its lines. */
  lemma PutKeepsColonFree(storage: Vault.Store, account: string, password: string)
    requires forall k :: k in storage ==> ':' !in storage[k]
    ensures forall k :: k in Vault.Put(storage, account, password) ==> ':' !in Vault.Put(storage, account, password)[k]
  {
    Secret.EncodeSecretPlain(password);
  }
}
