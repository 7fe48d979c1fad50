# Chirpy record store, modelled in Dafny

Chirpy is a small message service. Clients post short texts ("chirps") and
list them back in id order. This project models four parts of `main.go`:

- The record store `DB`. It keeps every chirp in one JSON file. Every
  operation reloads that whole file, and every write replaces it. An
  in-memory allocator, `currentID`, picks each new chirp's id. At start-up
  it is recovered by scanning the stored ids.
- The start-up step `NewDB`, which creates the file if it is missing and
  recovers the allocator.
- The body check of the `isValidChrip` handler. A body of at most 140 bytes
  is cleaned word by word. A longer body is rejected as too long.
- The request counter `fileserverHits`.

Modules:

- `Records` (records.dfy): the `Chirp` value, the snapshot map and the
  specification the store is proved against. This covers the allocator
  invariant, inserting a chirp, runs of successive creates, and the ordered
  listing with its uniqueness.
- `Store` (store.dfy): class `DB` with the fields `file` and `currentID`,
  its methods, `NewDB`, and `SortById`, which stands for `sort.Slice`.
  `DB.CreateAll` calls `CreateChirp` for each body in turn. It is proved to
  follow the run `Records.CreateMany`, so the lemmas about runs of creates
  are statements about the store.
- `Moderation` (moderation.dfy): the UTF-8 byte length, `strings.Split`
  and `strings.Join` on `" "`, ASCII lower-casing, the cleaner (a loop
  proved against the function `Clean`) and its properties.
- `Metrics` (metrics.dfy): class `ApiConfig` with the counter.

The file on disk is the field `DB.file`. It is `Absent`, `Corrupt` (bytes
that do not decode) or `Stored(map)`. `NewDB` receives the file's state at
start-up as a parameter, standing for the path. JSON encoding and decoding
are abstracted: a stored map is exactly what the store reads back.
`os.Stat`, `os.ReadFile` and `os.WriteFile` can fail at any call, and the
model picks failure or success nondeterministically. A failed write has
one of three outcomes:
- the file is left as it was, because it could not be opened;
- the file is left `Corrupt`, because it was truncated part-way;
- the file holds all the new data, but closing it reported an error.

The ghost field `DB.issued` records every id handed out, including ids
whose write then failed. `DB.Valid()` states the allocator invariant:
- `currentID >= 0`;
- `issued` is strictly increasing and lies below `currentID`;
- every key of a stored snapshot lies below `currentID`.

The model follows the code, including where its behaviour may surprise:
- `currentID` is never initialised (main.go:34-37), so a fresh store hands
  out id 0 first. `NewDB` sets the allocator to max(0, largest
  stored id + 1).
- The store accepts an empty body. Only the HTTP handler rejects one
  (main.go:152), and that handler is not modelled.
- There is no operation that looks up a single chirp by id.
- The allocator advances as soon as the load succeeds. When the write then
  fails, the caller gets an error and this store never hands the id out
  again. If only the close failed, the chirp is stored under that id
  anyway. After a restart an id whose chirp was not stored can be handed
  out again (see "Left out").

The source does not compile as written. The model follows the evident
intent:
- `Chrips` means `Chirps` (main.go:48, 63).
- The return type `Chrip` means `Chirp` (main.go:98).
- A comma is missing after `ID: db.currentID` (main.go:108).
- `sort` is used without being imported (main.go:137).
- Two route handlers are written as `????` (main.go:280-281); routing is
  not modelled.

## Model

| member | source | states |
|---|---|---|
| `Store.DB.constructor` | main.go:34-37 | a new store holds the given file, and `currentID` starts at Go's zero value 0 with no id issued |
| `Store.NewDB` | main.go:33-58 | on success the store is `Valid()`, its file is stored, and `currentID` is the recovered value: non-negative, above every stored key, and 0 or one more than a stored key. An existing stored file is kept as it was, an absent one becomes the empty snapshot, and a corrupt file never opens |
| `Store.DB.EnsureDB` | main.go:60-67 | an existing file (stored or corrupt) is never touched. An absent file becomes the empty snapshot on success. On failure it stays absent, becomes corrupt, or already holds the empty snapshot when only the close failed. Success leaves a file in place, so a second call changes nothing. Errors are only stat or write failures |
| `Store.DB.LoadDB` | main.go:69-84 | success returns exactly the stored snapshot. An absent file gives a read error, a corrupt file always fails, and a decode error happens only on a corrupt file. Nothing changes |
| `Store.DB.WriteDB` | main.go:86-96 | success replaces the whole file with the snapshot. A failure is a write error. It leaves the file unchanged, corrupt, or holding the new snapshot when only the close failed |
| `Store.DB.CreateChirp` | main.go:98-121 | keeps `Valid()`. A failed load changes nothing. A successful load advances `currentID` by exactly one and appends the old value to `issued`. On success the result is `Chirp(old currentID, body)` and the file is the loaded snapshot plus exactly that one new entry. Every stored outcome preserves keys-match-ids. A write error always means the id was consumed. The file is then unchanged, corrupt, or already holds the new entry |
| `Store.DB.CreateAll` | main.go:98-121 | repeated `CreateChirp` calls, stopping at the first error, keep `Valid()`. The i-th chirp created has id `currentID + i` and the i-th body. Without a stored file nothing is created and nothing changes, and any body makes the call fail. From a stored file, when no call fails, the chirps returned and the file are exactly the run `CreateMany` from the starting snapshot and allocator |
| `Store.DB.GetChirps` | main.go:123-142 | on success the file is stored and the result is a listing of it: ascending by id, and as multisets exactly one element per entry. An unstored file gives an error. Neither the file nor `currentID` changes |
| `Store.DB.RecoverCurrentID` | main.go:48-54 | the scan over the stored keys leaves `currentID` at the recovered value: non-negative, above every key, and 0 or one more than a stored key |
| `Store.CollectValues` | main.go:132-135 | walking the map collects its values, exactly one per entry, as a multiset |
| `Store.SortById` | main.go:137-139 | the array ends ascending by id and is a permutation of its old contents |
| `Records.AddChirp` | main.go:107-112 | storing at an id above every key adds exactly one entry, `id ↦ Chirp(id, body)`, keeps all other entries, grows the map by one, and leaves every key below the advanced allocator `id + 1` |
| `Records.AddChirpPreserves` | main.go:107-112 | inserting at the allocator value keeps every entry stored under its own id |
| `Records.CreateMany` | main.go:98-121 | the model of successive successful `CreateChirp` calls: the final snapshot and the chirps returned, one per create. Its properties are in the `CreateMany…` lemmas below, and `Store.DB.CreateAll` ties it to the store |
| `Records.CreateManyChirpAt` | main.go:98-121 | the i-th of successive successful creates returns `Chirp(next + i, body_i)`, and there is one result per create |
| `Records.CreateManySnapshot` | main.go:98-121 | successive successful creates keep every existing entry, grow the map by exactly the number of creates, and keep keys-match-ids with every key below the advanced allocator `next + n` |
| `Records.CreateManyKeeps` | main.go:107-113 | an entry stored before a run of creates is still there, unchanged, after it |
| `Records.CreateManyStoresAt` | main.go:107-113 | after a run of creates, each id `k` handed out in the run is stored, and it holds `Chirp(k, body)` for the body of that create |
| `Records.CreateManyIdsIncrease` | main.go:107-113 | ids returned by successive successful creates are strictly increasing, hence pairwise distinct |
| `Records.RecoveredIdUnique` | main.go:48-54 | the allocator value recovered by the start-up scan is determined by the snapshot, whatever order the map is walked in |
| `Records.RecoveredIdOfEmpty` | main.go:34-54 | on an empty snapshot the recovered allocator is 0 |
| `Records.ValuesAtRemove` | main.go:133-135 | collecting a map's values one key at a time gives the same multiset whichever key is taken first |
| `Records.ListingSpec` | main.go:127-141 | a listing has one element per entry and contains exactly the stored values. When entries are keyed by their ids, it is strictly ascending and each element is the entry under its own id |
| `Records.ListingUnique` | main.go:132-139 | when entries are keyed by their ids, there is exactly one listing, despite random map order and an unstable sort |
| `Records.FreshStoreScenario` | main.go:98-141 | a fresh store creating "hello" then "world" returns ids 0 and 1, and the listing shows them in that order |
| `Moderation.ByteLength` | main.go:212 | `len` of a Go string: the UTF-8 byte count, between the number of code points and four times it. It equals the number of code points exactly when every character is ASCII |
| `Moderation.CheckChirp` | main.go:212-240 | "too long" exactly when the body is over 140 bytes. Otherwise the answer is `Clean(body)`, which is itself at most 140 bytes |
| `Moderation.CleanBody` | main.go:216-232 | the nested loop over words and bad words returns `Clean(body)` |
| `Moderation.ToLower` | main.go:222 | lower-cases ASCII capitals code point by code point and keeps the length. No ASCII capital is left, and every other character is unchanged |
| `Moderation.Split` | main.go:217 | splitting on `" "` yields at least one piece, and no piece contains a space |
| `Moderation.Join` | main.go:232 | `strings.Join(words, " ")`, defined by recursion. It is pinned down as the inverse of `Split` by `JoinSplit` and `SplitJoin` |
| `Moderation.IsProfane` | main.go:221-227 | the inner loop's test: the word's lower-case form is one of the three bad words. See `ProfaneNotShorterThanMask` |
| `Moderation.CleanWord` | main.go:219-230 | what one word becomes: "****" when it is profane, otherwise itself. See `CleanWordNotProfane` and `CleanWordwise` |
| `Moderation.ProfaneNotShorterThanMask` | main.go:216-223 | a profane word has at least six characters, more than the four of "****" |
| `Moderation.CleanWordNotProfane` | main.go:219-230 | a cleaned word is never profane, because "****" is not a bad word |
| `Moderation.Clean` | main.go:216-232 | the cleaner as a function: split on `" "`, clean each word, join with `" "`. `CleanBody` is proved equal to it. Its properties are `CleanWordwise`, `CleanedWordsSplit`, `CleanKeepsWordCount`, `CleanWithoutBadWords`, `CleanIdempotent` and `CleanNeverLonger` |
| `Moderation.JoinSplit` | main.go:217-232 | joining the pieces of a split with `" "` gives back the original string |
| `Moderation.SplitJoin` | main.go:217-232 | splitting a join of space-free words gives back the words |
| `Moderation.CleanedWordsSplit` | main.go:217-232 | the cleaned body splits back into the body's words, each cleaned |
| `Moderation.CleanKeepsWordCount` | main.go:217-232 | the cleaned body has as many `" "`-separated words as the body |
| `Moderation.CleanWordwise` | main.go:219-231 | each word becomes "****" exactly when its lower-case form is "kerfuffle", "sharbert" or "fornax", and is otherwise unchanged |
| `Moderation.CleanWithoutBadWords` | main.go:216-232 | a body with no bad word comes back unchanged |
| `Moderation.CleanIdempotent` | main.go:216-232 | cleaning a cleaned body changes nothing |
| `Moderation.CleanNeverLonger` | main.go:212-232 | the cleaned body is never longer in bytes than the body |
| `Metrics.ApiConfig.constructor` | main.go:268 | the counter starts at 0 |
| `Metrics.WrappingIncrement` | main.go:174 | Go's `++` on a 64-bit `int`: the result is a 64-bit value congruent to `n + 1` modulo 2^64 |
| `Metrics.WrappingIncrementExact` | main.go:174 | the wrapping increment is the only such value. Below 2^63-1 it is exactly `n + 1` |
| `Metrics.ApiConfig.MiddlewareMetrics` | main.go:172-177 | each request passed on applies the 64-bit wrapping increment to the count. From a non-negative count below 2^63-1, that raises it by exactly one |
| `Metrics.ApiConfig.HandleReset` | main.go:252-256 | reset sets the count to 0 |
| `Metrics.ApiConfig.HandleMetrics` | main.go:246-250 | reports the current count, a 64-bit value, without changing it |

## Left out

- Locking with `sync.RWMutex`: each operation is one atomic sequential step. As written, `CreateChirp` holds the write lock and then calls `loadDB` and `writeDB`, which lock again, so it would deadlock. The model leaves the locks out.
- The operating-system calls and JSON encoding: the file is an abstract `FileState`, and a failed call is a nondeterministic error result, not byte-level behaviour. `json.MarshalIndent` of a snapshot cannot fail, so `WriteDB` has no encoding error.
- Store.NewDB: a failed start-up returns no store, so the model does not report what the failed call left in the file.
- Store.NewDB: Go's `int` is 32 or 64 bits wide, depending on the platform. A stored id of the largest `int` would make `id + 1` wrap to a negative allocator. The model uses unbounded integers, because only a hand-edited file can reach that id.
- Store.DB.CreateChirp: `currentID++` wraps at the largest `int` in Go: 2^31-1 or 2^63-1, depending on the platform. Unbounded integers are used, for the same reason.
- Store.DB.CreateChirp: the model assumes this store is the only writer of its file. That assumption is what makes "every stored key is below `currentID`" part of `Valid()`. The source reloads the file on each call, and nothing stops another process, or a second `NewDB` on the same path, from adding a key at or above `currentID`. The source would then run `data.Chirps[db.currentID] = chirp` (main.go:112) and silently overwrite that entry, and two stores would hand out the same ids. The model does not capture this.
- Store.DB.CreateChirp: an id whose write failed is never reused by the same store, but the file does not record it. After a restart, `NewDB` recovers the largest stored id + 1 (main.go:48-54), so such an id can be issued again. Example: the file holds {0} and `currentID` is 1. A create fails to open the file, so the file stays {0} and `currentID` becomes 2. After a restart `currentID` is 1 again, and the next create returns id 1. `issued` covers one store's lifetime only.
- A file whose `"chirps"` member is missing or null: Go decodes it to a nil map. `NewDB` and `GetChirps` treat that as empty, and `CreateChirp` would panic on the insert at main.go:112. The model has no file state for such a document, and only the store itself writes the file.
- Store.SortById: `sort.Slice` is a library call. The model proves only its contract (ascending by id, a permutation) with an insertion sort, not the library's algorithm or its order among equal ids.
- Moderation.ToLower: `strings.ToLower` is full Unicode. The model lower-cases ASCII only, so a word spelled with a non-ASCII capital that folds to a bad word, such as the Kelvin sign for "K", is not detected.
- HTTP plumbing is not modelled: request decoding and response writing in `createChirpHandler` and `isValidChrip`, status codes, the HTML of `adminMetrics`, `getHealth`, and routing and `ListenAndServe` in `main`.
- handler_users_create.go is not part of this model. It only forwards to `cfg.DB.CreateUser`, and `apiConfig` in main.go has no `DB` field (main.go:13-15), so there is no store logic here to model.
- Concurrent, unsynchronised increments of `fileserverHits` by parallel requests: the counter is modelled sequentially.
- Metrics.ApiConfig.MiddlewareMetrics: the wrap of `fileserverHits++` (main.go:174) is modelled for a 64-bit platform. The count stays non-negative only while at most 2^63-1 requests have been counted since the last reset, so `Valid()` promises only that the count is a 64-bit value.
- Metrics.WrappingIncrement: Go's `int` is 32 or 64 bits wide, depending on the platform. The model fixes the 64-bit case. On a 32-bit platform the counter would wrap at 2^31-1 instead.
