# gh-token, modelled in Dafny

`gh-token.py` opens a KeePass database holding GitHub fine-grained tokens,
lets the user pick one in a fuzzy menu, and stores it as the `github.com`
internet password of the macOS login keychain (`add`), or deletes that
keychain item (`rm`). This project models the deterministic logic inside
`main()` and proves what it promises:

- `Cli`: the command line. `prog -v` shows the version. Any other argument
  count than four is a usage error. The operation word must be `add` or `rm`.
- `Entries`: the display title of an entry, which is its title cut before the
  first `" ("`. Also the loop that fills `all_entries`: it skips entries of a
  `Recycle Bin…` group, and a later entry overwrites an earlier one with the
  same display title. The dictionary is modelled as its keys in insertion
  order plus a map.
- `Selection`: `sorted(keys, key=str.lower, reverse=True)` as a stable
  insertion sort. It is proved to be a permutation, non-increasing under the
  lower-cased ordering, and free of duplicates.
- `Keychain`: the two `security` argument tuples. Each has a reader that
  takes the tuple back to the request it encodes.
- `GhToken`: `main()` as two methods over a `Host` value that stands for the
  outside world. `Run` makes the early exits in order. `Store` builds and
  runs the keychain command once the operation is known. Around them sit the
  menu answer and the exit code.
- `Text`: `str.startswith`, `str.find`, an ASCII `str.lower`, and Python's
  ordering of strings.

## Model

| member | source | states |
|---|---|---|
| `Text.Find` | gh-token.py:100 | `str.find`: -1 exactly when the pattern does not occur; otherwise the pattern occurs at the result and at no smaller index |
| `Text.StartsWithConcat` | gh-token.py:98 | `str.startswith` holds exactly when the string is the prefix followed by something |
| `Text.Lower` | gh-token.py:106 | `str.lower` on ASCII: same length, no upper-case letter left, each upper-case letter moved by 32 code points, every other character unchanged |
| `Text.LowerIdempotent` | gh-token.py:106 | lower-casing twice gives the same as lower-casing once |
| `Selection.KeyLeLowered` | gh-token.py:106 | the sort key is idempotent: lower-cased keys sort in the same order as the keys |
| `Text.LexLeTotal` | gh-token.py:106 | any two strings are comparable under Python's string order |
| `Text.LexLeTransitive` | gh-token.py:106 | Python's string order is transitive |
| `Text.LexLeAntisymmetric` | gh-token.py:106 | two strings each at most the other are equal |
| `Cli.ParseOperation` | gh-token.py:79-81 | an operation is recognised exactly when the word is `add` or `rm` |
| `Cli.OperationNameInverse` | gh-token.py:79-81 | a word parses to an operation exactly when it is that operation's name |
| `Cli.ResolveArgs` | gh-token.py:53-62 | version exactly for `[prog, "-v"]`; usage exactly for every other argument count than 4; otherwise the three positionals are argv[1], argv[2], argv[3] |
| `Cli.CommandLine` | gh-token.py:53-62 | every version or positional invocation has a command line that resolves back to it |
| `Entries.DisplayTitle` | gh-token.py:100-103 | the display title is a prefix of the title, holds no `" ("`, and is the whole title or is followed by `" ("` |
| `Entries.DisplayTitleUnique` | gh-token.py:100-103 | those three properties determine the display title |
| `Entries.DisplayTitleExample` | gh-token.py:100-103 | `"Personal (work laptop)"` is shown as `"Personal"` |
| `Entries.RecycleBinGroups` | gh-token.py:98 | an entry is skipped exactly when its group name is "Recycle Bin" followed by anything, the empty suffix included |
| `Entries.TableKeys` | gh-token.py:96-104 | a key is in `all_entries` exactly when some non-recycled entry has it as display title |
| `Entries.TableKeysComplete` | gh-token.py:97-104 | every non-recycled entry's display title ends up as a key |
| `Entries.TableLastWriteWins` | gh-token.py:97-104 | the value under a key is the last non-recycled entry in enumeration order with that display title |
| `Entries.TableValues` | gh-token.py:96-104 | every stored value is a database entry outside the Recycle Bin whose display title is its key |
| `Entries.KeyOrderIsKeys` | gh-token.py:96-104 | the dictionary's insertion order lists each key once and only the keys |
| `Entries.BuildEntries` | gh-token.py:96-104 | the loop produces exactly the dictionary defined entry by entry: keys in insertion order without repeats, no recycled value, each value stored under its own display title |
| `Selection.Insert` | gh-token.py:106 | inserting into a descending list adds exactly that key and keeps the list descending |
| `Selection.SortDescending` | gh-token.py:106 | the result is a permutation of the keys, each element not greater than the one before it under `lower` |
| `Selection.NonIncreasingPairwise` | gh-token.py:106 | descending between neighbours implies descending between any two positions |
| `Selection.DistinctPermutation` | gh-token.py:106 | a permutation of a duplicate-free list is duplicate-free |
| `Selection.SortDescendingSpec` | gh-token.py:106 | the sorted list of distinct keys has the same elements, the same length, no duplicates, and is descending under `lower`; keys whose lower-case forms differ stand strictly in that order, so only keys equal up to case can trade places |
| `Selection.SortExample` | gh-token.py:106 | `alpha, Beta, gamma` is offered as `gamma, Beta, alpha` |
| `Keychain.Verb` | gh-token.py:114-127 | the subcommand, also the operation named on success, is `add-internet-password` exactly for an add and `delete-internet-password` otherwise |
| `Keychain.SecurityArgv` | gh-token.py:114-127 | the tuple reads back as the request it was built from; it starts with `security` and the verb and ends with the keychain; an add has 12 words, a delete 7 |
| `Keychain.ParseSecurityArgvInverse` | gh-token.py:114-127 | every tuple the reader accepts is the tuple built for what it reads |
| `Keychain.SecurityArgvInjective` | gh-token.py:114-127 | different requests give different tuples |
| `GhToken.RequestFor` | gh-token.py:114-127 | both requests go to account = user, server `github.com`, keychain `login.keychain`; only `add` carries the token, as its password |
| `GhToken.Choose` | gh-token.py:107-111 | no answer or an empty one cancels; an answer missing from the table is a lookup failure; otherwise the chosen entry is the table's value for that key |
| `GhToken.SelectionListSpec` | gh-token.py:96-106 | the menu lists every key of `all_entries` once and nothing else, case-insensitively descending |
| `GhToken.EmptyTitleNeverChosen` | gh-token.py:100-109 | an entry whose title starts with `" ("` has the empty display title, so the menu can never deliver it |
| `GhToken.ProfileUrl` | gh-token.py:70 | the probed URL is `https://github.com/` followed by exactly the user name |
| `GhToken.ExitCode` | gh-token.py:53-142 | the version exits 0 and every other stop before the keychain command exits 1; a successful command exits 0 and a failed one with its return code |
| `GhToken.EarlyExitsFail` | gh-token.py:57-110 | usage, a missing file, an unknown user, an unknown operation, a failed decryption, a cancelled menu and a missing key all give exit code 1 |
| `GhToken.Interpret` | gh-token.py:134-142 | success exactly for return code 0, naming the operation; otherwise a failure carrying that return code |
| `GhToken.ExitCodeIsReturnCode` | gh-token.py:134-142 | the exit code equals the return code of `security`; the process status is 0 exactly when that code is a multiple of 256 |
| `GhToken.ProcessStatus` | gh-token.py:142 | the process status lies in 0..255, agrees with the code on that range, and is congruent to it modulo 256 |
| `GhToken.Store` | gh-token.py:83-142 | for `rm` the command is the delete tuple for the user. For `add`, a failed decryption stops the program, and so does an empty, cancelled or unknown menu answer; otherwise the command is the add tuple carrying the chosen entry's password. The report is the interpreted return code of that very command |
| `GhToken.AddUsesLastEntry` | gh-token.py:97-114 | the token sent to the keychain is the password of the last non-recycled entry whose display title the user picked |
| `GhToken.Run` | gh-token.py:52-142 | the checks stop the program in the order version, usage, missing file, unknown user, unknown operation. A keychain command is built only after all checks pass. A valid `rm` call always runs the delete tuple for the user; a valid `add` call ends as `AddPathEnds` describes. The report is the interpreted return code of the command run. The exit code is 0 exactly for the version and for a successful command |

## Left out

- Printing: the version and usage texts (gh-token.py:36-49), the error messages, and the UTF-8 decoding and echo of the captured stdout/stderr (gh-token.py:137-141). The outcome records where the program stopped; it does not record what it printed.
- `os.path.isfile`, the GitHub probe through `urllib.request.urlopen`, `getpass`, the `KEY_FILE` lookup, PyKeePass decryption, the `pzp` menu and `subprocess.run` are all outside the model. They are fields of `GhToken.Host` and stand for arbitrary answers. Each exception the script catches around them becomes a `false` or `None` answer.
- Exceptions the script does not catch are assumed not to happen. Examples are `subprocess.run` raising because the `security` program is missing, and `getpass` raising on end of input or a keyboard interrupt. Python would end with a traceback and status 1, or die by SIGINT for a keyboard interrupt; the model has no outcome for these.
- The key file value is passed to the decryption unchanged. As in the source, an empty `KEY_FILE` is passed on and not treated as absent.
- `str.lower` is modelled for ASCII letters only. Full Unicode case mapping is not reproduced.
- `Selection.SortDescending`: stability is not stated. The insertion sort keeps keys with equal lower-case forms in insertion order, as Python's stable sort does, but no lemma proves it.
- Entries are modelled with string title, group name and password. An entry whose title, group name or password is `None` in pykeepass is not modelled: a `None` title or group name would raise in the loop, and a `None` password would make `subprocess.run` raise `TypeError` where the model runs the command.
- The second operation check in the `else` branch (gh-token.py:128-130) is not modelled. It cannot be reached after gh-token.py:79-81.
- A menu answer that is not a key of `all_entries` would raise `KeyError` at gh-token.py:110. The model returns the outcome `SelectionNotFound`, exit code 1, and does not model the traceback.
