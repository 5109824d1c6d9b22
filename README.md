# Password vault, modelled in Dafny

This project models a small local password vault that has two front ends.
`POC_streamlit_app.py` is a web front end built on Streamlit; `password_manager_app.py` is a command-line front end.
Both front ends keep the same state:

- a master password, stored Base64-encoded in `master_password.txt`;
- an in-memory vault that maps account names to Base64-encoded passwords;
- the file `app_passwords.txt`, with one `account:encoded` line per entry.

What is modelled:

- **Strength evaluator.** Five criteria, 20 points each. The tier is `Strong` at 100 points, `Medium` from 50 to 80, and `Weak` below 50.
- **Password generators.** The web version draws one seed character per enabled pool, fills the rest, then cuts to the length. The command-line version draws every character from a random enabled pool.
- **Store-file parsers and serialiser.** The web loader cuts each line at its first `:`. The command-line loader unpacks `split(":")` into two fields, so a line with two or more colons raises. Both front ends write the file the same way.
- **Operations on the vault.** Adding an account (its name is title-cased), updating one (a `Weak` password is refused), deleting one, and viewing with a case-insensitive search in sorted order.
- **Master-password gate.** The web front end compares the password with the stripped file content, once per button press. The command-line front end allows three attempts against the unstripped content.

Modules, one per file:

| file | module | what it holds |
|---|---|---|
| `wrappers.dfy` | `Wrappers`, `Bytes` | `Option`, and the byte type |
| `text.dfy` | `Text` | ASCII character classes, `lower`, `title`, `strip`, `split`, `in` on strings |
| `sorting.dfy` | `Sorting` | the string order `<`, and `sorted` on a set of keys |
| `utf8.dfy` | `Utf8` | `str.encode()` and `bytes.decode()` in UTF-8 |
| `base64.dfy` | `Base64` | Base64 with the standard alphabet and padding (section 4 of RFC 4648) |
| `secret.dfy` | `Secret` | how a password is encoded for storage and revealed again |
| `strength.dfy` | `Strength` | `evaluate_password` |
| `generator.dfy` | `Generator` | both versions of `password_generator` |
| `vault.dfy` | `Vault` | writing and deleting entries, and searching the vault |
| `storefile.dfy` | `StoreFile` | `load_passwords` (both versions) and `save_passwords` |
| `web.dfy` | `Web` | the web session (`Session` class), its handlers, and the view |
| `cli.dfy` | `Cli` | `login`, the `Accounts` class whose handlers change the vault, and `view_passwords` |

Side effects become parameters and results:

- The contents of a file are `Option<string>`, where `None` means the file does not exist.
- A file the code writes is returned, or stored in a field.
- What the user types is passed in as parameters.
- `random.choice` is a nondeterministic choice (`:|`). The proofs hold for every choice.
- The order in which a dictionary iterates is an explicit `order` parameter. `IsEnumeration` requires only that it lists each key exactly once.

Only a perfect score of 100 is `Strong`; 80 points (four criteria met) is `Medium` (`POC_streamlit_app.py:168-173`, `password_manager_app.py:67-72`).

## Model

| member | source | states |
|---|---|---|
| Strength.Evaluate | POC_streamlit_app.py:135-175 | each flag of the report holds exactly when its criterion does: length at least 8, some upper-case letter, some lower-case letter, some digit, some character of the symbol set |
| Strength.TierByCriteria | POC_streamlit_app.py:147-173 | the score is 20 times the number of criteria met, at most 100; `Strong` iff all 5 are met, `Medium` iff 3 or 4, `Weak` iff at most 2 |
| Strength.EightyIsMedium | password_manager_app.py:67-72 | 80 and 60 points are `Medium`, 100 is `Strong`, 40 is `Weak` |
| Strength.EmptyIsWeak | password_manager_app.py:41-72 | the empty password meets no criterion and is `Weak` |
| Strength.AllFiveIsStrong | POC_streamlit_app.py:147-169 | `Abcdef1!` meets all five criteria and is `Strong` |
| Strength.LowerOnlyIsWeak | POC_streamlit_app.py:147-173 | eight lower-case letters give 40 points and `Weak` |
| Strength.QuestionMarkCase | POC_streamlit_app.py:163-171 | `?` is not in the symbol set, so `aA0?bbbb` meets every criterion but the symbol one and is only `Medium` |
| Strength.DigitsAreNotSymbols | POC_streamlit_app.py:163 | no digit is in the symbol set |
| Strength.LettersAreNotSymbols | POC_streamlit_app.py:163 | no letter is in the symbol set |
| Generator.Pools | POC_streamlit_app.py:183-204 | the pools start with lower case, and every pool is non-empty |
| Generator.PoolsEnabled | password_manager_app.py:77-83 | the upper-case, digit and punctuation pools are each enabled iff their preference is exactly `"yes"` |
| Generator.SeedPools | POC_streamlit_app.py:183-204 | one seed character per enabled pool, the `j`-th drawn from the `j`-th pool |
| Generator.GenerateSeeded | POC_streamlit_app.py:178-213 | the length is the length asked for, cut as `[:length]` cuts (so a negative length counts from the end); every character is from an enabled pool; position `j` holds a character of pool `j`; the tier returned is the evaluator's tier for the password |
| Generator.SeededCoversEveryPool | POC_streamlit_app.py:189-211 | once the length reaches the number of enabled pools, every enabled pool has a character in the password |
| Generator.GenerateUniform | password_manager_app.py:76-92 | the length is `max(length, 0)`, every character is from an enabled pool, and the tier is the evaluator's tier for the password |
| Generator.LowercaseOnlyIsWeak | password_manager_app.py:77-89 | with no preference `"yes"`, any generated password is `Weak` |
| Generator.SymbolsArePunctuation | POC_streamlit_app.py:163-202 | every character of the symbol set is in the punctuation pool |
| Generator.PunctuationBeyondSymbols | POC_streamlit_app.py:201-213 | `aA0?bbbb` satisfies every guarantee of the seeded generator with every pool enabled, and is only `Medium` |
| Generator.SeededAllPools | POC_streamlit_app.py:189-211 | one character from each pool in pool order, followed by lower-case letters, satisfies every guarantee of the seeded generator with every pool enabled |
| Base64.EncodeLength | POC_streamlit_app.py:240 | the encoding of `n` bytes is `4 * ceil(n / 3)` characters long |
| Base64.DecodeEncode | POC_streamlit_app.py:429 | decoding an encoding gives back the bytes |
| Base64.EncodeInjective | POC_streamlit_app.py:261-262 | different byte strings have different encodings |
| Base64.EncodeAlphabet | POC_streamlit_app.py:240 | an encoding holds only alphabet characters and `=` |
| Base64.DecodeRejects | password_manager_app.py:248 | a text whose length is not a multiple of 4 does not decode, nor does one with a character outside the alphabet anywhere except `=` in the last two places |
| Utf8.EncodeChar | POC_streamlit_app.py:240 | a character encodes to 1 to 4 bytes, a valid lead byte followed by continuation bytes |
| Utf8.DecodeEncode | POC_streamlit_app.py:429 | decoding the UTF-8 encoding of a string gives back the string |
| Utf8.EncodeInjective | POC_streamlit_app.py:261-262 | different strings have different UTF-8 encodings |
| Secret.RevealEncode | password_manager_app.py:248 | revealing an encoded password gives back the password |
| Secret.EncodeSecretInjective | password_manager_app.py:121-123 | two passwords have equal encodings iff they are equal |
| Secret.EncodeSecretPlain | POC_streamlit_app.py:132 | an encoded password contains no `:` and no white space |
| Text.Lower | POC_streamlit_app.py:415 | `lower()` keeps the length, leaves no upper-case letter, keeps each character the same letter up to case, and keeps every character that is not an upper-case letter |
| Text.LowerIdempotent | password_manager_app.py:230 | lower-casing twice is the same as lower-casing once |
| Text.Title | POC_streamlit_app.py:278 | `title()` lower-cases a character that follows a letter and upper-cases every other character |
| Text.TitleIdempotent | password_manager_app.py:135 | title-casing twice is the same as title-casing once |
| Text.LowerOfTitle | POC_streamlit_app.py:415 | title-casing does not change the lower-case form |
| Text.StripSpec | POC_streamlit_app.py:259 | `strip()` keeps the middle part and drops white space at both ends |
| Text.SplitSpec | password_manager_app.py:15 | `split(":")` gives one more part than there are colons; no part contains a colon; joining the parts gives back the string |
| Sorting.SortedKeys | POC_streamlit_app.py:304 | `sorted` lists each key once, and only keys, in strictly increasing order |
| Sorting.SortedUnique | POC_streamlit_app.py:427 | only one strictly increasing sequence holds a given set of keys |
| Sorting.LessTransitive | password_manager_app.py:214 | the string order is transitive |
| Sorting.LessTotal | password_manager_app.py:214 | any two different strings are ordered one way or the other |
| Vault.Put | POC_streamlit_app.py:290-291 | after a write, the account reveals the new password; the keys gain that account; no other entry changes |
| Vault.Remove | POC_streamlit_app.py:339 | after a delete, exactly that account is gone and no other entry changes |
| Vault.Results | POC_streamlit_app.py:413-427 | the search results are exactly the stored accounts that match, strictly sorted, one per matching account |
| Vault.EmptyQueryMatchesAll | POC_streamlit_app.py:415 | the empty query matches every account |
| Vault.MatchesIgnoresCase | password_manager_app.py:230 | the search gives the same answer whatever the case of the account name or the query, and for the title-cased name |
| Vault.ExactNameMatches | password_manager_app.py:230 | searching for an account's own name finds it |
| StoreFile.LinesSpec | POC_streamlit_app.py:121 | the lines put back together give the text; no line is empty; only the last line can lack its `\n`, and no line has another `\n` |
| StoreFile.ParseLineFirstColonSpec | POC_streamlit_app.py:122-123 | a line is skipped iff it has no `:`; otherwise the stripped line is the account, `:`, then the encoding, and the account has no `:` |
| StoreFile.ParseLineEveryColonSpec | password_manager_app.py:14-15 | a line raises iff it has two or more colons; it is skipped iff it has none; otherwise it parses as the web loader parses it |
| StoreFile.LoadFirstColon | POC_streamlit_app.py:116-125 | a missing file loads as the empty vault; otherwise the vault is the line-by-line fold of the parsed lines |
| StoreFile.LoadEveryColon | password_manager_app.py:8-17 | like the web loader, but the load stops with an error at the first line that raises |
| StoreFile.FoldFirstColonKeys | POC_streamlit_app.py:121-124 | an account is loaded iff some line that has a `:` names it |
| StoreFile.FoldFirstColonNamer | POC_streamlit_app.py:121-124 | every loaded account has a line that names it |
| StoreFile.FoldFirstColonNamed | POC_streamlit_app.py:121-124 | every line that names an account loads it |
| StoreFile.FoldFirstColonLastWins | POC_streamlit_app.py:124 | the last line for an account decides the value that is loaded |
| StoreFile.FoldEveryColonSpec | password_manager_app.py:13-16 | the command-line load raises iff some line has two or more colons; otherwise it loads the same vault as the web load |
| StoreFile.Save | POC_streamlit_app.py:128-132 | the file is the concatenation of one `account:encoded\n` line per entry, in iteration order |
| StoreFile.RoundTrip | POC_streamlit_app.py:116-132 | saving and then loading gives back the same vault, when account names have no `:`, no line break and no leading white space, and values have no line break and no trailing white space |
| StoreFile.RoundTripEveryColon | password_manager_app.py:8-25 | the same round trip holds for the command-line loader when, in addition, no value contains `:` |
| StoreFile.PutKeepsStorable | POC_streamlit_app.py:291 | writing an entry keeps the vault within the round-trip conditions, provided the account name is within them |
| StoreFile.PutKeepsColonFree | password_manager_app.py:143 | entries the vault writes never contain `:` |
| Web.Session.constructor | POC_streamlit_app.py:483-486 | a new session is logged out, with the vault loaded from the store file |
| Web.Session.CreateMasterPassword | POC_streamlit_app.py:227-245 | an empty password changes nothing; otherwise the master file holds its encoding and the user is logged in |
| Web.Session.Login | POC_streamlit_app.py:248-268 | with no master file, nothing changes; the user logs in and the vault is reloaded iff the encoded candidate equals the stripped file content; otherwise nothing changes |
| Web.Session.AddPassword | POC_streamlit_app.py:273-294 | an empty title-cased name or an empty password changes nothing; otherwise the vault is the old vault with that entry written |
| Web.Session.UpdatePassword | POC_streamlit_app.py:297-325 | an empty vault, an empty password or a `Weak` password each change nothing; otherwise only the selected account is rewritten |
| Web.Session.DeletePassword | POC_streamlit_app.py:328-340 | an empty vault changes nothing; otherwise only the selected account is removed |
| Web.Session.SaveChanges | POC_streamlit_app.py:506-508 | the store file becomes the serialisation of the vault; nothing else changes |
| Web.GateSound | POC_streamlit_app.py:258-262 | a master file made from `p`, even with white space around it, accepts a candidate iff it is `p` |
| Web.DisplayOf | POC_streamlit_app.py:428-431 | the password is masked iff passwords are hidden; it is shown iff it is asked for and decodes, and what is shown is the decoded password |
| Web.ViewPasswords | POC_streamlit_app.py:402-436 | "no passwords stored" iff the vault is empty; "no results" iff nothing matches; otherwise the matching accounts, sorted, numbered from 1, and counted |
| Web.RowsListExactly | POC_streamlit_app.py:423-434 | the numbered rows of the search results list exactly the matching accounts, sorted, each with its display |
| Web.EmptyQueryListsAll | POC_streamlit_app.py:413-423 | without a query, every account is listed and the total is the size of the vault |
| Web.AddedIsListed | POC_streamlit_app.py:413-434 | an account just added is found by searching for its name, with its password when shown |
| Cli.Login | password_manager_app.py:97-130 | with no master file, the first answer is written encoded and access is granted; otherwise at most 3 prompts; access iff one of the first 3 answers matches; it stops at the first match; no earlier answer matched |
| Cli.Attempts | password_manager_app.py:116-130 | the prompt loop stops at the first answer whose encoding equals the file content, after at most 3 prompts; access iff one of the first 3 answers matches, and no answer before the last one asked matched |
| Cli.Verdict | password_manager_app.py:119-130 | where the loop stops fixes the verdict: access iff one of the first 3 answers matches |
| Cli.GateSound | password_manager_app.py:119-124 | a master made from `p` accepts answers iff `p` is among them |
| Cli.TrailingNewlineLocksOut | password_manager_app.py:113-123 | the file content is not stripped, so a master file that gained a `\n` accepts no answer |
| Cli.Accounts.Add | password_manager_app.py:134-144 | the title-cased name is written with no empty check; the evaluator's tier is returned |
| Cli.Accounts.Update | password_manager_app.py:148-171 | an unknown title-cased name or a `Weak` password changes nothing; otherwise only that entry is rewritten |
| Cli.Accounts.Delete | password_manager_app.py:175-188 | the title-cased name is removed iff it is stored; otherwise nothing changes |
| Cli.UpdateKeepsAccounts | password_manager_app.py:155-170 | an update never adds an account |
| Cli.NatToString | password_manager_app.py:217 | a number prints as a non-empty string of digits with no leading zero (only `0` itself starts with `0`) |
| Cli.DecimalOfNat | password_manager_app.py:250 | reading a printed number back gives the number |
| Cli.ReportOf | password_manager_app.py:207-241 | "No passwords stored." iff the vault is empty; "No results" iff a search was asked for and nothing matches; otherwise the total is the whole vault, counted before the search, and the listed accounts are exactly the matching ones, strictly sorted |
| Cli.ViewPasswords | password_manager_app.py:190-258 | the text returned is the rendering of that report: a heading, then one numbered line per account |
| Cli.AppendRows | password_manager_app.py:243-258 | the loop appends one line per listed account, numbered from 1, and fails where a password does not decode |
| Cli.NamesNeverRaise | password_manager_app.py:254-258 | listing account names alone never fails |
| Cli.ViewRaisesOnlyOnBadEntry | password_manager_app.py:243-258 | the view fails only when it shows passwords and an entry does not reveal |
| Vault.PutRemoveKeepRevealable | POC_streamlit_app.py:291-339 | writing and deleting entries keep every entry revealable |

## Left out

- Streamlit rendering, page layout, CSS, the logo (`apply_custom_style`, `get_logo_base64`, `main`'s layout) and `st.rerun`: these are display only.
- The command-line `menu` loop and every prompt and message it prints: the handlers it dispatches to are modelled with their inputs as parameters.
- `generate_password_ui` and the generator branch of `menu`: these only collect inputs and display the result. The generator itself is modelled.
- The numbered account listing that `update_password` and `delete_password` print before asking: it is output only.
- File I/O: file contents are values, and a missing file is `None`. Text-mode newline translation is not modelled: reading turns `\r\n` and a lone `\r` into a line end, while the model splits lines on `\n` only.
- The distribution of `random.choice`: only which values it can return is modelled.
- Character classes, `lower`, `title` and `strip` are modelled over ASCII only. Python's Unicode case mapping, Unicode digits and Unicode white space are not.
- Strings that hold lone surrogates cannot be represented: a Dafny `char` is a Unicode scalar value.
- Base64.Decode: the decoder is the strict decoder of RFC 4648: a length that is a multiple of 4, only alphabet characters, and padding only at the end. Python's `b64decode` is looser in two ways. It discards characters outside the alphabet before decoding, so only the number of alphabet characters matters. It also ignores whatever follows the padding that closes a quantum (`QQ==QQ==` decodes to `A`). So the model reports as undecodable some text that Python decodes. Like Python, the model ignores the unused low bits of a padded quantum, and decoding the vault's own encodings is exact.
- Cli.Login: the answers must cover every prompt the function may ask for (1 without a master file, 3 with one). End of input (`EOFError`) is not modelled.
- Web.Session: the session bootstrapping in `main` is modelled only as the constructor. That the pages are shown only after login is not enforced by the handlers, just as in the code.
- Web.ViewPasswords: a row whose password does not decode is marked `Undecodable`. In the code that row raises and stops the page.
