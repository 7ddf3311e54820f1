# Key-value cache core: command parser and age-bounded store

This project models the two pure pieces of a small networked key-value cache
in Dafny and proves properties about them.

- **The command parser** (`ParseCommand`, present in both `library.py` and
  `client.py`) turns one line of text into `(command, arg1, remainder)`. It
  strips whitespace from both ends of the line and splits on every single
  `' '`. The first piece is the command and the second is `arg1`. The
  remainder is the pieces from the third on, joined back with `' '`.
- **The key-value store** (`KeyValueStore` with its entry record
  `ValTimeStore`) maps string keys to a value and the time it was stored. It
  also keeps a `has_been_set` flag. `StoreValue` overwrites an entry and
  stamps it with the current time. `GetValue` is a lookup with an optional
  maximum age that never deletes anything. `Keys` lists every key.

Files:

- `wrappers.dfy`: module `Wrappers`, the `Option` type that stands for Python's `None`.
- `strings.dfy`: module `Strings`, the Python string builtins the parser uses.
  These are `str.strip()`, `str.split(' ')` and `' '.join`, with their
  round-trip lemmas.
- `library.dfy`: module `Library`, the parser and the store of `library.py`.
  It also has a model of a sequence of calls on one store instance. That model
  states what holds across calls: the flag invariant, that reads never modify,
  that nothing is deleted, and that the last write wins.
- `client.dfy`: module `Client`, the parser copy of `client.py`.

Modelling choices:

- The clock is the explicit argument `now` in place of `time.time()`.
  Timestamps and ages are `real` seconds, so no float rounding is modelled.
  The model does not assume that `now` is at least an entry's timestamp. A
  clock that runs backwards simply gives a negative elapsed time, as the
  source would compute it.
- The store is an immutable datatype. `StoreValue` returns the status code
  (`0` or `1`, as in the source) together with the next store.
- Python's `None` is `Option.None`. `StoreValue` takes `Option<string>` key
  and value because the source checks both for `None`.
- Whitespace for `strip()` is the set of code points Python 3's `str.isspace`
  accepts. The server socket calls `listen()` with no argument, which Python
  2.7 rejects, so the code runs as Python 3, whatever its header comment says.
- On blank or whitespace-only input the parser returns `("", None, None)`:
  splitting the empty string yields one empty piece, so the command is never
  `None`. Consecutive spaces give empty pieces and are not collapsed.

## Model

| member | source | states |
|---|---|---|
| Strings.IsWhitespace | library.py:91 | the characters `strip()` removes: Python 3's `str.isspace` set, that is tab through carriage return, U+001C to U+001F, space, U+0085, U+00A0, U+1680, U+2000 to U+200A, U+2028, U+2029, U+202F, U+205F and U+3000 |
| Strings.WhitespaceSamples | library.py:91 | space, tab, newline, carriage return, U+000B, U+000C, U+001C, U+001F, U+0085, U+00A0 and U+3000 are stripped; a letter, backspace and the zero-width space U+200B are not |
| Strings.TrimStartDrops | library.py:91 | removing leading characters drops only characters of the removed kind, and what is kept does not start with one |
| Strings.TrimEndDrops | library.py:91 | removing trailing characters drops only characters of the removed kind, and what is kept does not end with one |
| Strings.Strip | library.py:91 | `strip()` returns a string with no whitespace at either end and leaves an already stripped line unchanged |
| Strings.StripKeepsMiddle | library.py:91 | `strip()` keeps one contiguous piece of the line and removes only whitespace before and after it |
| Strings.StripEmpty | library.py:91 | `strip()` returns the empty string exactly when the line is all whitespace |
| Strings.Split | library.py:91 | `split(' ')` never returns zero pieces and no piece contains a space |
| Strings.SplitCount | library.py:91 | `split(' ')` gives exactly one more piece than the line has spaces, adjacent spaces included |
| Strings.JoinSplit | library.py:91-100 | joining the pieces of a split with `' '` gives back the split string |
| Strings.Join | library.py:100 | `' '.join`: puts one space between consecutive pieces; `JoinSplit` and `SplitJoin` characterise it as the inverse of `split(' ')` on pieces without spaces |
| Strings.SplitJoin | library.py:91-100 | splitting a `' '`-join of space-free pieces gives back the pieces |
| Library.ParseCommand | library.py:76-101 | the command is always present; command and `arg1` contain no space; a remainder is present only together with `arg1` |
| Library.ParseCommandRoundTrip | library.py:91-100 | the command, then `' '` + `arg1` if present, then `' '` + remainder if present, equals the stripped line |
| Library.ParseCommandInvertsUnparse | library.py:91-101 | parsing the line a well-formed triple stands for returns that triple, so the parser loses nothing |
| Library.ParseCommandWellFormed | library.py:91-101 | every triple the parser returns is well formed, so the parser and `Unparse` are mutual inverses on the stripped lines |
| Library.ParseCommandArity | library.py:95-100 | `arg1` is present exactly when the stripped line has at least one `' '`; the remainder exactly when it has at least two |
| Library.ParseCommandBlank | library.py:91-94 | empty or whitespace-only input, and only such input, gives `("", None, None)` |
| Library.ParseCommandByStrip | library.py:91-101 | the result depends only on the stripped line: a line that strips to the line of a well-formed triple parses as that triple |
| Library.ParseCommandSingleToken | library.py:91-94 | a stripped line without `' '` is the whole command, tabs inside it included |
| Library.ParseCommandOneToken | library.py:91-94 | `"SET"` parses as `("SET", None, None)` |
| Library.ParseCommandTwoTokens | library.py:95-97 | `"SET foo"` parses as `("SET", "foo", None)` |
| Library.ParseCommandFourTokens | library.py:98-100 | `"SET foo bar baz"` parses as `("SET", "foo", "bar baz")` |
| Library.ParseCommandDoubleSpace | library.py:91-100 | `"A  b"` parses as `("A", "", "b")`: a double space gives an empty `arg1` |
| Library.ParseCommandBlankExample | library.py:91-94 | `"   "` parses as `("", None, None)` |
| Library.ParseCommandTabExample | library.py:91 | `" GET\tk v \n"` parses as `("GET\tk", "v", None)`: the ends are stripped and the tab stays in its token |
| Library.ValTimeStore | library.py:103-110 | an entry is a value together with the clock reading taken when it was created; `StoreValue` creates one stamped with `now`, and `OverwriteResetsAge` shows that a new entry replaces the old stamp |
| Library.NewKeyValueStore | library.py:120-125 | a new store has no keys, satisfies the flag invariant, and every lookup on it returns `None` |
| Library.GetValue | library.py:127-157 | before any successful store every lookup is `None`; a returned value is the value stored under the key; a present key within the age bound (or with no bound) is returned once a store has succeeded |
| Library.StoreValue | library.py:159-171 | a missing key or value returns 1 and changes nothing; otherwise it returns 0, sets the flag, maps the key to the value stamped with `now`, keeps every other entry, and preserves the flag invariant |
| Library.Keys | library.py:173-176 | on a valid store the keys are exactly those an unbounded lookup finds, aged-out entries included, and there are none exactly when no store has succeeded |
| Library.GetValueSpec | library.py:139-157 | on a valid store a lookup succeeds exactly when the key is present and its age is within the bound, so the flag never changes an answer |
| Library.GetValueMonotone | library.py:147-153 | a value returned under one bound is returned under any larger bound and under no bound |
| Library.ExpiredStillRetrievable | library.py:147-157 | an entry refused for its age is still in the store, still returned without a bound or with a bound of its age, and still listed by `Keys` |
| Library.ReadAfterWrite | library.py:140-169 | after a successful store, a lookup of that key returns the value whenever the bound covers the time since the store |
| Library.OverwriteResetsAge | library.py:106-109 | a second store of a key replaces the entry with a fresh timestamp: a bound of 0 at that moment returns the new value |
| Library.StoreLeavesOtherKeys | library.py:166-169 | on a valid store, storing one key changes no lookup of any other key |
| Library.KeysAfterTwoStores | library.py:159-176 | after storing `"a"` and then `"b"` in a new store, the keys are exactly `{"a", "b"}` |
| Library.InvalidStoreChangesNothing | library.py:166-171 | a store with an absent key or value returns 1 and no lookup of any key changes |
| Library.RunPreservesValid | library.py:120-171 | every call keeps the flag set exactly when the dictionary is non-empty, so this holds of every store reached from a new one |
| Library.ReadsDoNotModify | library.py:127-157 | any sequence of calls ends in the same store as its store calls alone: lookups and listings change nothing |
| Library.RunNeverDeletes | library.py:159-176 | a key present before a sequence of calls is present after it |
| Library.RunLastWriteWins | library.py:159-171 | from a new store, a key is present exactly when some store of it succeeded, and its entry is the value and time of the latest such store |
| Library.RunGetValue | library.py:139-171 | from a new store, an unbounded lookup returns the value of the latest successful store of the key, and `None` if there was none |
| Client.ParseCommand | client.py:73-96 | the client's copy returns the same triple as the library's parser on every line |
| Client.ParseCommandBlank | client.py:86-89 | the command is never absent; blank input, and only blank input, gives `("", None, None)` |
| Client.ParseCommandArity | client.py:90-95 | `arg1` is present exactly when the stripped line has a `' '`; the remainder exactly when it has two |
| Client.ParseCommandRoundTrip | client.py:86-95 | the present parts joined with single spaces equal the stripped line |
| Client.ParseCommandKeepsTabs | client.py:86-96 | only `' '` separates: any line that strips to the line of a well-formed triple parses as that triple, so tabs and other whitespace inside the line stay inside their tokens |
| Client.ParseCommandTabExample | client.py:86 | `" GET\tk v \n"` parses as `("GET\tk", "v", None)` |

## Left out

- Socket code (`CreateServerSocket`, `ConnectClientToServer`, `CreateClientSocket`, `ReadCommand`) in both files: network I/O with no logic to state. The 256-byte `recv` limit and the byte decoding go with it.
- `time.time()`: replaced by the `now` argument. Float timestamps and float comparison are modelled as exact `real` arithmetic.
- `Keys`: returns a set. The source returns a dictionary view, which has an order and follows later changes to the store; neither is modelled.
- Keys and values of types other than strings and `None`: the source does not check types, and the model takes strings only.
- Concurrency: the source has no locking and the model is sequential.
