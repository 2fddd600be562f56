/** An in-memory metadata store that stands in for a remote trust-metadata
    repository. It keeps two string-keyed maps:

    - `data` holds blobs under the names they were set with, plus the
      version-pinned aliases "<version>.<name>" written when a blob parses as
      signed metadata;
    - `consistent` holds blobs under content-addressed names derived from the
      name and a digest of the bytes.

    Every operation is a pure transition on an immutable `Store` value. The
    digest, the content-addressed naming scheme and the metadata parser are
    code outside this component; they are passed in through `Env` and nothing
    is assumed about them. */
module MemoryStore {

  import opened Wrappers
  import Decimal

  type Blob = seq<bv8>

  /** The collaborators the store calls as black boxes. */
  datatype Env = Env(
    digest: Blob -> Blob,                     // SHA-256 of the blob
    consistentName: (string, Blob) -> string, // content-addressed name of (name, digest)
    parseVersion: Blob -> Option<int>         // the `version` of a signed-metadata envelope, if the blob is one
  )

  /** The sentinel meaning "no size given" and the cap substituted for it. */
  datatype Limits = Limits(noSizeLimit: int, maxDownloadSize: nat)

  datatype StoreError = ErrMetaNotFound(resource: string)

  datatype Store = Store(data: map<string, Blob>, consistent: map<string, Blob>)

  /** The name under which a blob set as `name` is content-addressed. */
  function ConsistentKey(env: Env, name: string, blob: Blob): string {
    env.consistentName(name, env.digest(blob))
  }

  /** The version-pinned name "<version>.<name>". */
  function VersionAlias(version: int, name: string): string {
    Decimal.IntToString(version) + "." + name
  }

  /** The `data` keys that setting `meta` under `name` writes. */
  function Written(env: Env, name: string, meta: Blob): set<string> {
    match env.parseVersion(meta)
    case Some(v) => {name, VersionAlias(v, name)}
    case None => {name}
  }

  /** `order` lists the keys of a map, each exactly once: one possible
      iteration order of a Go map with those keys. */
  predicate Enumerates(order: seq<string>, keys: set<string>) {
    && (forall i, j :: 0 <= i < j < |order| ==> order[i] != order[j])
    && (forall k :: k in order ==> k in keys)
    && (forall k :: k in keys ==> k in order)
  }

  /** Distinct keys of `blobs` have distinct content-addressed names. */
  predicate ConsistentNamesDistinct(env: Env, blobs: map<string, Blob>) {
    forall k1, k2 :: k1 in blobs && k2 in blobs && k1 != k2 ==>
      ConsistentKey(env, k1, blobs[k1]) != ConsistentKey(env, k2, blobs[k2])
  }

  function ConsistentKeysOf(env: Env, blobs: map<string, Blob>, order: seq<string>): set<string>
    requires forall k :: k in order ==> k in blobs
  {
    set k | k in order :: ConsistentKey(env, k, blobs[k])
  }

  function Empty(): Store {
    Store(map[], map[])
  }

  function SeedOf(initial: Option<map<string, Blob>>): map<string, Blob> {
    match initial
    case None => map[]
    case Some(m) => m
  }

  /** The seeding loop of the constructor: inserts the content-addressed entry
      of every seed key, visiting the keys in `order`; a later key wins when
      two keys share a content-addressed name. */
  function IndexSeed(env: Env, consistent: map<string, Blob>, seed: map<string, Blob>, order: seq<string>)
    : (r: map<string, Blob>)
    requires forall k :: k in order ==> k in seed
    ensures r.Keys == consistent.Keys + ConsistentKeysOf(env, seed, order)
    ensures forall c :: c in consistent && c !in ConsistentKeysOf(env, seed, order) ==> r[c] == consistent[c]
    ensures forall c :: c in ConsistentKeysOf(env, seed, order) ==>
              exists k :: k in order && ConsistentKey(env, k, seed[k]) == c && r[c] == seed[k]
    ensures ConsistentNamesDistinct(env, seed) ==>
              forall k :: k in order ==> r[ConsistentKey(env, k, seed[k])] == seed[k]
    decreases |order|
  {
    if |order| == 0 then
      consistent
    else
      var k := order[0];
      assert ConsistentKeysOf(env, seed, order)
          == {ConsistentKey(env, k, seed[k])} + ConsistentKeysOf(env, seed, order[1..]);
      IndexSeed(env, consistent[ConsistentKey(env, k, seed[k]) := seed[k]], seed, order[1..])
  }

  /** `NewMemoryStore(initial)`: `data` is the seed itself and `consistent`
      holds the content-addressed entry of every seed blob; no version aliases
      are synthesised. A nil seed gives two empty maps. */
  function NewMemoryStore(env: Env, initial: Option<map<string, Blob>>, order: seq<string>): (r: Store)
    requires Enumerates(order, SeedOf(initial).Keys)
    ensures r.data == SeedOf(initial)
    ensures r.consistent.Keys == set k | k in r.data :: ConsistentKey(env, k, r.data[k])
    ensures forall c :: c in r.consistent ==>
              exists k :: k in r.data && ConsistentKey(env, k, r.data[k]) == c && r.consistent[c] == r.data[k]
    ensures ConsistentNamesDistinct(env, r.data) ==>
              forall k :: k in r.data ==> r.consistent[ConsistentKey(env, k, r.data[k])] == r.data[k]
    ensures initial.None? ==> r == Empty()
  {
    var seed := SeedOf(initial);
    Store(seed, IndexSeed(env, map[], seed, order))
  }

  /** `Get(name)`: the plain/version index first, then the content-addressed
      index; a name in `data` shadows the same name in `consistent`. */
  function Get(s: Store, name: string): (r: Result<Blob, StoreError>)
    ensures r.Ok? <==> name in s.data || name in s.consistent
    ensures name in s.data ==> r.value == s.data[name]
    ensures name !in s.data && name in s.consistent ==> r.value == s.consistent[name]
    ensures r.Err? ==> r.error == ErrMetaNotFound(name)
  {
    if name in s.data then Ok(s.data[name])
    else if name in s.consistent then Ok(s.consistent[name])
    else Err(ErrMetaNotFound(name))
  }

  /** The cap a `data` hit is read with: the maximum download size when the
      caller passed the "no size limit" sentinel. */
  function EffectiveSize(lim: Limits, size: int): int {
    if size == lim.noSizeLimit then lim.maxDownloadSize else size
  }

  function Min(a: int, b: int): int {
    if a < b then a else b
  }

  /** The inputs on which `GetSized` does not slice out of bounds: a `data`
      hit is cut at the effective size, a `consistent` hit at `size` itself
      (that branch does not substitute the maximum download size). */
  predicate SizedReadInBounds(lim: Limits, s: Store, name: string, size: int) {
    && (name in s.data ==> 0 <= EffectiveSize(lim, size))
    && (name !in s.data && name in s.consistent ==> 0 <= size)
  }

  /** `GetSized(name, size)`: the same lookup as `Get`, returning a prefix of
      the stored blob no longer than the cap. */
  function GetSized(lim: Limits, s: Store, name: string, size: int): (r: Result<Blob, StoreError>)
    requires SizedReadInBounds(lim, s, name, size)
    ensures r.Err? ==> r == Get(s, name)
    ensures r.Ok? <==> Get(s, name).Ok?
    ensures r.Ok? ==> r.value <= Get(s, name).value
    ensures name in s.data ==>
              |r.value| == Min(|s.data[name]|, EffectiveSize(lim, size))
    ensures name !in s.data && name in s.consistent ==>
              |r.value| == Min(|s.consistent[name]|, size)
  {
    if name in s.data then
      var d := s.data[name];
      var cap := EffectiveSize(lim, size);
      if |d| < cap then Ok(d) else Ok(d[..cap])
    else if name in s.consistent then
      var d := s.consistent[name];
      if |d| < size then Ok(d) else Ok(d[..size])
    else
      Err(ErrMetaNotFound(name))
  }

  /** The sized read `GetSized`'s documentation describes: the "no size limit"
      sentinel is cut off at the maximum download size in both branches, not
      only in the `data` branch. */
  function GetSizedCapped(lim: Limits, s: Store, name: string, size: int): (r: Result<Blob, StoreError>)
    requires name in s.data || name in s.consistent ==> 0 <= EffectiveSize(lim, size)
    ensures r.Err? ==> r == Get(s, name)
    ensures r.Ok? <==> Get(s, name).Ok?
    ensures r.Ok? ==> r.value <= Get(s, name).value
    ensures r.Ok? ==> |r.value| == Min(|Get(s, name).value|, EffectiveSize(lim, size))
  {
    match Get(s, name)
    case Err(e) => Err(e)
    case Ok(d) =>
      var cap := EffectiveSize(lim, size);
      if |d| < cap then Ok(d) else Ok(d[..cap])
  }

  /** `Set(name, meta)`: writes `meta` under `name`, under its version alias
      when it parses as signed metadata (a failed parse is ignored), and under
      its content-addressed name. It always succeeds. */
  function Set(env: Env, s: Store, name: string, meta: Blob): (r: Store)
    ensures r.data.Keys == s.data.Keys + Written(env, name, meta)
    ensures forall k :: k in Written(env, name, meta) ==> r.data[k] == meta
    ensures forall k :: k in s.data && k !in Written(env, name, meta) ==> r.data[k] == s.data[k]
    ensures r.consistent.Keys == s.consistent.Keys + {ConsistentKey(env, name, meta)}
    ensures r.consistent[ConsistentKey(env, name, meta)] == meta
    ensures forall c :: c in s.consistent && c != ConsistentKey(env, name, meta) ==>
              r.consistent[c] == s.consistent[c]
  {
    var plain := s.data[name := meta];
    var data := match env.parseVersion(meta)
      case Some(v) => plain[VersionAlias(v, name) := meta]
      case None => plain;
    Store(data, s.consistent[ConsistentKey(env, name, meta) := meta])
  }

  /** The `data` keys written by setting the entries of `metas` in `order`. */
  function WrittenBy(env: Env, metas: map<string, Blob>, order: seq<string>): set<string>
    requires forall k :: k in order ==> k in metas
    decreases |order|
  {
    if |order| == 0 then {} else Written(env, order[0], metas[order[0]]) + WrittenBy(env, metas, order[1..])
  }

  /** `Set` applied to the entries of `metas` one after another, in `order`. */
  function SetAll(env: Env, s: Store, metas: map<string, Blob>, order: seq<string>): (r: Store)
    requires forall k :: k in order ==> k in metas
    ensures r.data.Keys == s.data.Keys + WrittenBy(env, metas, order)
    ensures forall k :: k in s.data && k !in WrittenBy(env, metas, order) ==> r.data[k] == s.data[k]
    ensures r.consistent.Keys == s.consistent.Keys + ConsistentKeysOf(env, metas, order)
    ensures forall c :: c in s.consistent && c !in ConsistentKeysOf(env, metas, order) ==>
              r.consistent[c] == s.consistent[c]
    decreases |order|
  {
    if |order| == 0 then
      s
    else
      var k := order[0];
      assert ConsistentKeysOf(env, metas, order)
          == {ConsistentKey(env, k, metas[k])} + ConsistentKeysOf(env, metas, order[1..]);
      SetAll(env, Set(env, s, k, metas[k]), metas, order[1..])
  }

  /** `SetMulti(metas)`: `Set` for every entry, in the iteration order
      `order` of the Go map. The result can depend on that order. */
  function SetMulti(env: Env, s: Store, metas: map<string, Blob>, order: seq<string>): (r: Store)
    requires Enumerates(order, metas.Keys)
    ensures r.data.Keys == s.data.Keys + WrittenBy(env, metas, order)
    ensures metas.Keys <= r.data.Keys
    ensures forall k :: k in s.data && k !in WrittenBy(env, metas, order) ==> r.data[k] == s.data[k]
    ensures r.consistent.Keys == s.consistent.Keys + set k | k in metas :: ConsistentKey(env, k, metas[k])
    ensures forall c :: c in s.consistent && c !in (set k | k in metas :: ConsistentKey(env, k, metas[k])) ==>
              r.consistent[c] == s.consistent[c]
  {
    WrittenByCoversOrder(env, metas, order);
    assert ConsistentKeysOf(env, metas, order) == set k | k in metas :: ConsistentKey(env, k, metas[k]);
    SetAll(env, s, metas, order)
  }

  /** Every name in `order` is among the keys its `Set` calls write. */
  lemma {:induction false} WrittenByCoversOrder(env: Env, metas: map<string, Blob>, order: seq<string>)
    requires forall k :: k in order ==> k in metas
    ensures forall k :: k in order ==> k in WrittenBy(env, metas, order)
    decreases |order|
  {
    if |order| > 0 {
      WrittenByCoversOrder(env, metas, order[1..]);
      forall k | k in order
        ensures k in WrittenBy(env, metas, order)
      {
        if k != order[0] {
          assert k in order[1..];
        }
      }
    }
  }

  /** `Remove(name)`: when `name` is in `data`, deletes it and the
      content-addressed entry of the blob currently stored under it; otherwise
      does nothing. Version aliases and older content-addressed entries stay. */
  function Remove(env: Env, s: Store, name: string): (r: Store)
    ensures name !in s.data ==> r == s
    ensures name in s.data ==> r.data.Keys == s.data.Keys - {name}
    ensures name in s.data ==>
              r.consistent.Keys == s.consistent.Keys - {ConsistentKey(env, name, s.data[name])}
    ensures forall k :: k in r.data ==> k in s.data && r.data[k] == s.data[k]
    ensures forall c :: c in r.consistent ==> c in s.consistent && r.consistent[c] == s.consistent[c]
  {
    if name in s.data then
      var path := ConsistentKey(env, name, s.data[name]);
      Store(s.data - {name}, s.consistent - {path})
    else
      s
  }

  /** `RemoveAll()`: the store becomes a freshly constructed empty one. */
  function RemoveAll(s: Store): (r: Store)
    ensures forall name :: Get(r, name) == Err(ErrMetaNotFound(name))
  {
    Empty()
  }

  /** `Location()`: the fixed diagnostic label of this store. */
  function Location(): string {
    "memory"
  }

  /** `ListFiles()`: every key of `data` once, in an unspecified order (Go map
      iteration order, modelled by an arbitrary choice at each step). */
  method ListFiles(s: Store) returns (names: seq<string>)
    ensures forall i, j :: 0 <= i < j < |names| ==> names[i] != names[j]
    ensures forall n :: n in names <==> n in s.data
    ensures |names| == |s.data|
    ensures forall n :: n in names ==> Get(s, n) == Ok(s.data[n])
  {
    names := [];
    var rest := s.data.Keys;
    while rest != {}
      invariant rest <= s.data.Keys
      invariant forall n :: n in names <==> n in s.data && n !in rest
      invariant forall i, j :: 0 <= i < j < |names| ==> names[i] != names[j]
      invariant |names| + |rest| == |s.data.Keys|
      decreases |rest|
    {
      var n :| n in rest;
      names := names + [n];
      rest := rest - {n};
    }
  }
}
