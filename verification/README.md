# pokedexCLI core in Dafny

This project models the two sequential cores of a Pokédex command-line
client written in Go:

- **The time-expiring byte cache** (`internal/pokecache.go`). The cache maps
  request URLs to entries, and each entry records the instant it was added.
  `Add` inserts or replaces an entry. `Get` looks an entry up and never checks
  its age. A background "reaper" wakes up every `interval` and deletes every
  entry whose age is greater than `interval`.
- **The REPL input normaliser** (`repl.go`). `cleanInput` lower-cases a
  typed line and splits it into words around runs of whitespace.

Modules:

| file | module | what it holds |
|---|---|---|
| `wrappers.dfy` | `Wrappers` | `Option`, the result of a lookup that may miss |
| `pokecache.dfy` | `PokeCache` | entries, the cache, `NewCache`, `Add`, `Get`, one reaper sweep (as a function and as the loop the source runs), and their properties |
| `cachetrace.dfy` | `CacheTrace` | sequences of whole operations on one cache, and what such a history leaves behind for each key |
| `strings.dfy` | `Strings` | an ASCII model of Go's `strings.ToLower` and `strings.Fields`, with the characterisation of `Fields` |
| `repl.dfy` | `Repl` | `CleanInput` and its properties, including the two unit-test cases |

Modelling choices:

- Time is explicit. An `Instant` is an integer count of nanoseconds on the
  wall clock, and it is passed to `Add` and to the sweep as `now`. The source
  stamps entries with `time.Now().UTC()`, which drops Go's monotonic clock
  reading, so the wall clock may run backwards. The model therefore never
  assumes that instants increase.
- The interval is a `Duration`, meaning an integer in Go's `int64` range. The
  code accepts any value, including zero and negative ones, so no
  precondition restricts it.
- The age test `now.Sub(entry.createdAt) > interval` is modelled with Go's
  saturation. `time.Time.Sub` clamps its result to the `int64` range
  (`Elapsed`). Because of this, an entry expires exactly when
  `now - createdAt > interval` for every interval below the `int64` maximum.
  At that maximum, nothing ever expires (`PokeCache.ExpiredExactly`).
- The Go struct holds only the map and the mutex; the interval lives in the
  reaper goroutine's closure. The model keeps the interval in the `Cache`
  value, so that one sweep is a function of the cache and `now`.
- `Get` returns `Option<Bytes>`. Go's `(nil, false)` is `None`, and
  `(v, true)` is `Some(v)`.
- Every operation runs under the cache's lock for its whole duration, so a
  concurrent execution behaves like some sequence of whole operations.
  `CacheTrace` models exactly such sequences.
- Strings are restricted to ASCII behaviour. Whitespace means space, `\t`,
  `\n`, `\v`, `\f` and `\r`. Lower-casing maps `A`-`Z` to `a`-`z`. Every
  other character is left unchanged and never counts as whitespace.

## Model

| member | source | states |
|---|---|---|
| `PokeCache.NewCache` | internal/pokecache.go:24-34 | A new cache has an empty store: `Get` misses on every key. It keeps the given interval and accepts any interval. |
| `PokeCache.Add` | internal/pokecache.go:38-47 | Afterwards the key maps to an entry stamped with `now`, and `Get` returns the new value. The key set grows by this key only. Every other key keeps exactly its previous entry, and `Get` answers the same for it. |
| `PokeCache.Get` | internal/pokecache.go:51-61 | A value is found exactly when the key is present. A present entry's value is returned whatever its age, since the lookup takes no clock. A missing key gives `None`, the `(nil, false)` of the source. |
| `PokeCache.Reap` | internal/pokecache.go:71-77 | A sweep at `now` keeps a key exactly when its entry is not older than the interval. Kept entries are unchanged, no key is added, and afterwards no remaining entry is expired. |
| `PokeCache.ReapSweep` | internal/pokecache.go:69-78 | The reaper's loop visits the keys in any order and deletes the current key when its entry has expired. It ends with the same cache as `Reap`, and no remaining entry is expired. |
| `PokeCache.Elapsed` | internal/pokecache.go:74 | The age `now.Sub(createdAt)` as Go computes it: the exact difference when it fits in `int64`, and otherwise the nearest `int64` bound. The result is the maximum exactly when the difference is at least the maximum, and the minimum exactly when it is at most the minimum. `ExpiredExactly` and `ElapsedMonotone` state what this means for the age test. |
| `PokeCache.ExpiredExactly` | internal/pokecache.go:74 | For an interval below the `int64` maximum, the saturated age test holds exactly when `now - createdAt > interval`. At the maximum interval, no entry ever expires. |
| `PokeCache.ElapsedMonotone` | internal/pokecache.go:71-74 | A later `now` never gives a smaller age. |
| `PokeCache.StaleUntilSwept` | internal/pokecache.go:51-77 | `Get` still returns an entry that is already expired. The next sweep removes it, and after that `Get` misses. |
| `PokeCache.FreshCacheRoundTrip` | internal/pokecache_test.go:31-44 | On a new cache, after `Add(key, val)`, `Get(key)` returns `val` and every other key misses. |
| `PokeCache.LastWriteWins` | internal/pokecache.go:43-46 | Two adds to one key leave the same cache as the second add alone. `Get` returns the second value, and the number of entries does not grow. |
| `PokeCache.ReapIdempotent` | internal/pokecache.go:71-77 | A second sweep at the same `now` changes nothing. |
| `PokeCache.ReapLater` | internal/pokecache.go:66-79 | A sweep at `t1` followed by a sweep at a later `t2` leaves what the sweep at `t2` alone leaves. |
| `PokeCache.SweepAfterAdd` | internal/pokecache.go:38-77 | After `Add(key, val)` at `added` and a sweep at `now`, `Get(key)` returns `val` if `now - added <= interval`. If `now - added > interval` it misses, provided the interval is below the `int64` maximum. At that maximum the value is always still found, because the saturated age never exceeds it. |
| `CacheTrace.RunMatchesHistory` | internal/pokecache.go:38-80 | After any history, a key holds entry `e` exactly when one of two things is true. Either `e` comes from the last `Add` to that key, or no `Add` touched the key and `e` was there at the start. In both cases, no sweep after that point found `e` expired. |
| `CacheTrace.RunAppend` | internal/pokecache.go:38-80 | Running one more operation is one more step on the result of the history. |
| `CacheTrace.SweptHistorySettled` | internal/pokecache.go:69-78 | Whatever came before, when a sweep at `now` completes, no remaining entry is older than the interval. |
| `Strings.LowerChar` | repl.go:11 | The result is never an upper-case letter. An upper-case letter becomes the same letter in lower case, and any other character is unchanged. Whitespace stays whitespace. |
| `Strings.ToLower` | repl.go:11 | The result has the same length and no upper-case letter. Each upper-case letter becomes its own lower-case letter at the same position, characters that are not upper-case letters are unchanged, and whitespace stays at the same positions. |
| `Strings.ToLowerIdempotent` | repl.go:11 | Lower-casing twice is the same as lower-casing once. |
| `Strings.ToLowerOfLower` | repl.go:11 | A string with no upper-case letter is its own lower-case form. |
| `Strings.Span` | repl.go:13 | It gives the length of the leading run of whitespace (or of non-whitespace). Every character in the run has that kind, and the character just after the run does not. |
| `Strings.Fields` | repl.go:13 | Every field is non-empty and contains no whitespace. |
| `Strings.FieldsEmpty` | repl.go:13 | A string has no fields exactly when it is empty or all whitespace. |
| `Strings.FieldsOfLayout` | repl.go:13 | Words placed between whitespace separators split back into exactly those words, in order. The separators between two words are non-empty; the outer ones may be empty. |
| `Strings.FieldsDecompose` | repl.go:13 | Every string is its fields, in order, laid out between whitespace gaps whose inner gaps are non-empty. |
| `Strings.FieldsCharacterization` | repl.go:13 | `Fields(s) == ws` holds exactly when the elements of `ws` are words and `s` is `ws` laid out between valid whitespace separators. |
| `Strings.FieldsConcat` | repl.go:13 | Joining the fields with nothing between them gives the string with its whitespace deleted. |
| `Strings.FieldsOfJoin` | repl.go:13 | Words joined by single spaces split back into the same words. |
| `Strings.FieldsIdempotent` | repl.go:13 | Splitting the single-space join of the fields gives the same fields. |
| `Strings.FieldsNoUpper` | repl.go:11-13 | The fields of a string with no upper-case letters have none either. |
| `Repl.CleanInput` | repl.go:9-15 | Every word is non-empty, contains no whitespace and has no upper-case letter. |
| `Repl.CleanInputBlank` | repl.go:11-13 | A line yields no words exactly when it is empty or all whitespace. |
| `Repl.CleanInputLayout` | repl.go:11-14 | The words keep their input order. Placed between the whitespace gaps of the lower-cased line, they rebuild that line exactly. |
| `Repl.CleanInputConcat` | repl.go:11-13 | Joining the words with nothing between them gives the lower-cased line with all whitespace removed. |
| `Repl.CleanInputIdempotent` | repl.go:9-15 | Cleaning the words joined by single spaces returns the same words. |
| `Repl.CleanInputSpacedWords` | repl_test.go:16-20 | `"  hello  world  "` gives `["hello", "world"]`. |
| `Repl.CleanInputMixedCase` | repl_test.go:21-25 | `"  Charmander Bulbasaur PIKACHU  "` gives `["charmander", "bulbasaur", "pikachu"]`. |

## Left out

- The reaper goroutine's endless loop, `time.Sleep(interval)` and the `sync.RWMutex` (internal/pokecache.go:12, 31, 40-41, 53-54, 66-69, 78) are not modelled. They concern scheduling and mutual exclusion. The model covers one sweep, and any sequence of whole operations.
- The timing of sweeps is not modelled, so there is no lemma about how long an expired entry can stay visible between sweeps. The model states what each sweep removes, not when sweeps happen.
- `time.Now()` and `.UTC()` are not modelled, and neither is Go's monotonic clock reading. Every clock reading is an explicit `now` argument.
- Full Unicode behaviour of `strings.ToLower` and `strings.Fields` is not modelled. Go also splits on U+0085, U+00A0 and the other Unicode white-space characters, lower-cases non-ASCII letters, and handles invalid UTF-8. The model treats every non-ASCII character as an ordinary, unchanged non-space character. The property lemmas hold for all inputs of the model, but they match Go only on ASCII text.
- Go's distinction between a `nil` slice and an empty slice is not modelled. `Add(k, nil)` followed by `Get(k)` gives `Some([])` here, where Go gives `(nil, true)`.
- Slice aliasing is not modelled. The cache stores the caller's `[]byte` in `Add` and returns that same slice from `Get`, without copying it (internal/pokecache.go:45, 58). If the caller changes those bytes after `Add`, Go's `Get` returns the changed bytes. The model stores a value, so `Get` returns the bytes as they were when `Add` ran.
- `commands.go` is not part of this model: it is HTTP fetches, JSON decoding, printing and process exit over libraries that are not visible.
- `main.go` is not part of this model: it is the standard-input loop and the command dispatch. Its calls pass four arguments (main.go:37, 41), while commands.go:16 declares callbacks of one argument, so the dispatch cannot be modelled faithfully from main.go and commands.go as written.
- The expiry test in internal/pokecache_test.go:55-71 is not used. It adds `"https://exampleURL.com"` but then checks that `"https://example.com"` is missing, so it says nothing about reaping. The sweep properties come from internal/pokecache.go:71-77 instead.
