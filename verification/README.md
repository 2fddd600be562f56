# In-memory trust-metadata store, modelled in Dafny

This project models `MemoryStore` from notary's `storage` package. It is the
in-memory stand-in for a remote trust-metadata repository. The store holds
signed metadata blobs (root, targets, snapshot, timestamp and so on) in two
string-keyed maps:

- `data` holds blobs under the names they were set with. It also holds the
  version-pinned aliases `"<version>.<name>"`, which `Set` writes when a blob
  parses as a signed-metadata envelope.
- `consistent` holds blobs under content-addressed names:
  `ConsistentName(name, sha256(blob))`.

The store is an immutable `Store` value, and every operation is a pure
function on it. The exception is `ListFiles`, a method, because Go's map
iteration order is an arbitrary choice.

The store calls three pieces of code that are not part of this model:

- SHA-256;
- `utils.ConsistentName`;
- `json.Unmarshal` into `data.SignedMeta`, followed by reading
  `.Signed.Version`.

These are the fields `digest`, `consistentName` and `parseVersion` of an
`Env` value. Every operation that calls them takes an `Env` as a parameter.
Nothing is assumed about them. Where a property needs the content-addressed names of different
keys to differ, the lemma takes that as an explicit hypothesis
(`ConsistentNamesDistinct`).

`NoSizeLimit` and `notary.MaxDownloadSize` are defined outside the modelled
file. They are the fields of a `Limits` value, and the maximum is a `nat`.

The model keeps these behaviours exactly as the code has them:

- Version aliases live in `data`. So `ListFiles` returns them and `Remove`
  can delete them by name.
- `Remove` purges only the content-addressed entry of the blob currently
  stored. Entries left by earlier blobs set under the same name survive.
- Only the `data` branch of `GetSized` replaces `NoSizeLimit` by the maximum
  download size. The `consistent` branch slices at `size` directly, and a
  negative size there panics in Go. `GetSized` therefore requires
  `SizedReadInBounds`, which is exactly the set of inputs that do not panic.
  `GetSizedCapped` is the read the documentation of `GetSized` describes, with
  the cap applied in both branches (see "## Findings").
- `SetMulti` is `Set` applied in the iteration order of a Go map. That order
  is an explicit `order` sequence listing each key once. The result can
  depend on it (`SetMultiOrderMatters`).
- The constructor's seeding loop also iterates a Go map. `NewMemoryStore`
  takes the seed's iteration order in the same way.

`Location` returns the constant `"memory"` and is modelled as a plain
function without a contract.

Modules:

- `Wrappers` has `Option` and `Result`.
- `Decimal` renders `%d`. It proves that the digits of a natural number can be
  read back, and that the rendering of integers, negatives included, is
  injective.
- `MemoryStore` has the state and the operations.
- `MemoryStoreProperties` has the lemmas that relate several operations.

## Model

| member | source | states |
|---|---|---|
| Decimal.IntToString | storage/memorystore.go:86 | the `%d` rendering of a version is non-empty, starts with '-' exactly for negative versions, and never contains '.' |
| Decimal.DigitsRoundTrip | storage/memorystore.go:86 | reading back the decimal digits of a natural number gives that number |
| Decimal.IntToStringInjective | storage/memorystore.go:86 | distinct versions render to distinct strings |
| MemoryStoreProperties.VersionAliasDiffers | storage/memorystore.go:86-87 | the alias "<v>.<n>" is never the plain name `n`, so writing it cannot clobber the plain entry |
| MemoryStoreProperties.VersionAliasInjective | storage/memorystore.go:86 | the alias "<v>.<n>" determines both `v` and `n` |
| MemoryStore.IndexSeed | storage/memorystore.go:20-25 | the seeding loop adds exactly the content-addressed names of the seed keys and leaves other entries alone; each added name holds the blob of some seed key with that name, and that key's own blob when the names are distinct |
| MemoryStore.NewMemoryStore | storage/memorystore.go:15-31 | `data` is the seed with no version aliases; `consistent` has exactly the content-addressed names of the seed entries, each holding the blob of a seed key with that name, and that key's own blob when the names are distinct; a nil seed gives two empty maps |
| MemoryStore.Get | storage/memorystore.go:67-75 | found exactly when the name is in `data` or in `consistent`; `data` shadows `consistent`; a miss is `ErrMetaNotFound` carrying the name |
| MemoryStore.GetSized | storage/memorystore.go:45-64 | same hit or miss as `Get`; a hit is a prefix of `Get`'s blob, of length min(blob length, effective size) for `data` and min(blob length, size) for `consistent` |
| MemoryStore.GetSizedCapped | storage/memorystore.go:40-55 | the documented sized read: same hit or miss as `Get`, a prefix of `Get`'s blob of length min(blob length, effective size) in both branches |
| MemoryStore.Set | storage/memorystore.go:78-93 | `data` gains the plain name and, when the blob parses, its version alias, both holding the blob; `consistent` gains the blob's content-addressed name; no other key changes |
| MemoryStore.SetAll | storage/memorystore.go:99-101 | writing entries one after another changes exactly the keys their `Set` calls write and keeps every other entry |
| MemoryStore.WrittenByCoversOrder | storage/memorystore.go:99-101 | every entry's own name is among the `data` keys written |
| MemoryStore.SetMulti | storage/memorystore.go:98-103 | every entry's name ends up in `data`; `consistent` gains exactly the entries' content-addressed names; every key of either map that no entry's `Set` writes keeps its value |
| MemoryStore.Remove | storage/memorystore.go:107-115 | an absent name leaves the store unchanged; otherwise exactly the name and the content-addressed name of its current blob are deleted, and every surviving entry keeps its value |
| MemoryStore.RemoveAll | storage/memorystore.go:118-121 | afterwards every `Get` is `ErrMetaNotFound` |
| MemoryStore.ListFiles | storage/memorystore.go:130-136 | returns each key of `data` exactly once, `|data|` names in all, each usable with `Get` |
| MemoryStoreProperties.SetThenGet | storage/memorystore.go:78-93 | after `Set(n, b)`, `Get(n)` is `b`; a blob with version `v` is also under "<v>.<n>"; a blob that does not parse adds no other `data` key; the content-addressed name gives `b` unless an untouched `data` key of that name shadows it |
| MemoryStoreProperties.SetOverwrites | storage/memorystore.go:79 | the plain name holds only the most recently set blob |
| MemoryStoreProperties.SetIdempotent | storage/memorystore.go:78-93 | setting the same blob under the same name twice gives the same store as once |
| MemoryStoreProperties.RemoveAfterSet | storage/memorystore.go:107-115 | after `Set(n, b)` and then `Remove(n)`, `n` and `b`'s content-addressed entry are gone; `n` is not found unless a content-addressed entry carries that name; the version alias still gives `b` |
| MemoryStoreProperties.RemoveUndoesSet | storage/memorystore.go:107-115 | `Remove` undoes `Set` of a fresh name whose blob is unversioned and whose content-addressed name was unused |
| MemoryStoreProperties.RemoveKeepsEarlierDigestEntries | storage/memorystore.go:108-112 | after setting `b1`, then `b2`, under one name and then removing it, the content-addressed entry of `b1` survives |
| MemoryStoreProperties.RemoveAllResets | storage/memorystore.go:118-121 | `RemoveAll` gives the store built by the constructor with a nil seed: no keys, nothing found |
| MemoryStoreProperties.GetSizedIsCappedGet | storage/memorystore.go:45-62 | a sized read of a stored name is a prefix of the stored blob no longer than the cap, and the whole blob when the cap is at least its length |
| MemoryStoreProperties.GetSizedNoLimitCapped | storage/memorystore.go:48-54 | a read of a `data` name with `NoSizeLimit` returns exactly the first `MaxDownloadSize` bytes of a larger blob |
| MemoryStoreProperties.GetSizedConsistentIgnoresCap | storage/memorystore.go:56-61 | on a name only in `consistent`, a negative `NoSizeLimit` falls outside the inputs that slice in bounds, and a non-negative one returns `NoSizeLimit` bytes, fewer than `MaxDownloadSize` |
| MemoryStoreProperties.GetSizedCappedNoLimit | storage/memorystore.go:40-44 | the documented read with `NoSizeLimit` returns min(blob length, `MaxDownloadSize`) bytes from either index |
| MemoryStoreProperties.GetSizedCappedAgrees | storage/memorystore.go:45-63 | the documented read equals `GetSized` on every `data` hit, every miss, and every `consistent` hit read with an explicit size |
| MemoryStoreProperties.SetAllStoresEachEntry | storage/memorystore.go:99-101 | if no entry's version alias is another entry's name, every entry's name holds its blob after the writes |
| MemoryStoreProperties.SetAllIndexesEachEntry | storage/memorystore.go:99-101 | if the entries' content-addressed names are distinct, each holds its entry's blob after the writes |
| MemoryStoreProperties.SetMultiStoresEachEntry | storage/memorystore.go:98-103 | `SetMulti` makes every entry readable under its name in any iteration order, provided no version alias clashes with another entry's name |
| MemoryStoreProperties.SetMultiOrderMatters | storage/memorystore.go:98-103 | when one entry's version alias is another entry's name, that name ends up holding whichever blob the iteration order writes last |
| MemoryStoreProperties.SetAllIndexesLikeSeed | storage/memorystore.go:90-92 | the `consistent` side of a sequence of writes equals what the constructor's seeding loop builds from the same entries and order |
| MemoryStoreProperties.NewMemoryStoreIsSetMulti | storage/memorystore.go:15-31 | for a seed with no versioned blobs, the constructor builds the same store as `SetMulti` of the seed into an empty store |

## Left out

- SHA-256, `utils.ConsistentName` and the JSON decoding of `data.SignedMeta` are not part of this model. They are uninterpreted fields of `Env`.
- The values of `NoSizeLimit` and `notary.MaxDownloadSize` are not part of this model. They are fields of `Limits`.
- The text of `ErrMetaNotFound`'s error message is not part of this model. The error is modelled as a value carrying the resource name.
- `GetSized` takes `size` as an unbounded integer. The `int64` range of Go's `size`, and of `int64(len(d))`, is not modelled, because no blob in memory comes near it.
- Go reference aliasing is not modelled, because maps and blobs are values here. In Go, the constructor keeps the caller's seed map itself, and returned slices share storage with the stored blobs.
- Concurrency is not modelled, because the store has no locking.
- The `error` results of `Set`, `SetMulti`, `Remove` and `RemoveAll` are left out, because they are always nil. These operations return only the new store.
- `Location` has no contract, because it only returns the constant `"memory"`.
- MemoryStore.NewMemoryStore: when two seed keys share a content-addressed name, states only that the entry holds one of their blobs. The model follows the given iteration order and the last key wins, but the contract does not say which key that is.
- MemoryStore.IndexSeed: like `NewMemoryStore`, does not say which of two seed keys sharing a content-addressed name provides the stored blob.
- MemoryStore.SetMulti: states which keys are written and that all others keep their values, but not the final values of written keys. A version alias that equals another entry's name makes those values order-dependent. `SetMultiStoresEachEntry` states them under the no-clash hypothesis.
- MemoryStore.GetSized: the requires excludes the inputs on which Go's `d[:size]` panics: a `data` hit with a negative effective size, and a `consistent` hit with a negative `size`, including a negative `NoSizeLimit`.
- Names are Dafny `string`s, which are sequences of Unicode scalar values. Go strings are arbitrary byte sequences, and names that are not valid UTF-8 are not modelled.
- `ListFiles` also lists version aliases, because `Set` stores them in `data` (storage/memorystore.go:87, 132-133). Aliases are not filtered out of the listing.
- `Get(n)` after `Remove(n)` is not found only when no content-addressed entry is also named `n`, because `Get` falls back to `consistent` (storage/memorystore.go:71-73). `RemoveAfterSet` states it with that hypothesis.
- `Get` of a blob's content-addressed name after `Set` returns that blob only when no untouched `data` entry has the same name, because `data` shadows `consistent` (storage/memorystore.go:68-70). `SetThenGet` states it with that hypothesis.

## Findings

| source | as written | input that shows it | evidently intended | confidence | as-written member | corrected member |
|---|---|---|---|---|---|---|
| storage/memorystore.go:56-61 | the `consistent` branch of `GetSized` slices at `size` without replacing `NoSizeLimit` by `MaxDownloadSize` | a name present only in `consistent`, read with `size == NoSizeLimit`: a negative sentinel makes `d[:size]` panic, and a non-negative one returns `NoSizeLimit` bytes | cap `NoSizeLimit` at `MaxDownloadSize` in both branches, as the doc comment at lines 40-44 and the `data` branch at lines 48-50 do | medium, not executed | MemoryStoreProperties.GetSizedConsistentIgnoresCap | MemoryStore.GetSizedCapped |
