/** Properties of the in-memory metadata store that relate several of its
    operations: reads after writes, removal after writes, idempotence, the
    order dependence of multi-entry writes, and the agreement of the
    constructor with a sequence of writes. */
module MemoryStoreProperties {

  import opened Wrappers
  import Decimal
  import opened MemoryStore

  /** A version alias is never the plain name it pins: it is strictly longer. */
  lemma VersionAliasDiffers(version: int, name: string)
    ensures VersionAlias(version, name) != name
  {
    assert |VersionAlias(version, name)| > |name|;
  }

  lemma DotFollows(prefix: string, name: string)
    ensures (prefix + "." + name)[|prefix|] == '.'
    ensures forall i :: 0 <= i < |prefix| ==> (prefix + "." + name)[i] == prefix[i]
  {
  }

  /** "<v>.<n>" determines both the version and the name: the version's
      rendering holds no '.', so the first '.' is the separator. */
  lemma VersionAliasInjective(v1: int, n1: string, v2: int, n2: string)
    requires VersionAlias(v1, n1) == VersionAlias(v2, n2)
    ensures v1 == v2 && n1 == n2
  {
    var s1, s2 := Decimal.IntToString(v1), Decimal.IntToString(v2);
    var a := VersionAlias(v1, n1);
    assert a == s1 + "." + n1 == s2 + "." + n2;
    DotFollows(s1, n1);
    DotFollows(s2, n2);
    if |s1| < |s2| {
      assert false;
    } else if |s2| < |s1| {
      assert false;
    }
    assert s1 == a[..|s1|] == s2;
    assert n1 == a[|s1| + 1..] == n2;
    Decimal.IntToStringInjective(v1, v2);
  }

  /** After `Set(n, b)`: `Get(n)` returns `b`; a blob that parses with
      version `v` is also found under "<v>.<n>"; a blob that does not parse
      adds no other `data` key; and the content-addressed name returns `b`
      unless a `data` key of the same name, untouched by this call, shadows it. */
  lemma SetThenGet(env: Env, s: Store, n: string, b: Blob)
    ensures Get(Set(env, s, n, b), n) == Ok(b)
    ensures env.parseVersion(b).Some? ==>
              Get(Set(env, s, n, b), VersionAlias(env.parseVersion(b).value, n)) == Ok(b)
    ensures env.parseVersion(b).None? ==> Set(env, s, n, b).data.Keys == s.data.Keys + {n}
    ensures var c := ConsistentKey(env, n, b);
            c !in s.data || c in Written(env, n, b) ==> Get(Set(env, s, n, b), c) == Ok(b)
  {
  }

  /** The plain name keeps only the latest blob set under it. */
  lemma SetOverwrites(env: Env, s: Store, n: string, b1: Blob, b2: Blob)
    ensures Get(Set(env, Set(env, s, n, b1), n, b2), n) == Ok(b2)
  {
  }

  /** Setting the same blob under the same name twice is the same as once. */
  lemma SetIdempotent(env: Env, s: Store, n: string, b: Blob)
    ensures Set(env, Set(env, s, n, b), n, b) == Set(env, s, n, b)
  {
    var once := Set(env, s, n, b);
    var twice := Set(env, once, n, b);
    assert twice.data == once.data;
    assert twice.consistent == once.consistent;
  }

  /** `Remove(n)` after `Set(n, b)`: the plain entry and the content-addressed
      entry of `b` are gone, so `n` is not found unless some other
      content-addressed entry carries the name `n`; the version alias of `b`
      survives and still returns `b`. */
  lemma RemoveAfterSet(env: Env, s: Store, n: string, b: Blob)
    ensures var r := Remove(env, Set(env, s, n, b), n);
            && n !in r.data
            && ConsistentKey(env, n, b) !in r.consistent
            && (n !in r.consistent ==> Get(r, n) == Err(ErrMetaNotFound(n)))
    ensures env.parseVersion(b).Some? ==>
              Get(Remove(env, Set(env, s, n, b), n), VersionAlias(env.parseVersion(b).value, n)) == Ok(b)
  {
    if env.parseVersion(b).Some? {
      VersionAliasDiffers(env.parseVersion(b).value, n);
    }
  }

  /** `Remove` undoes a `Set` of a fresh name whose blob is not versioned
      metadata and whose content-addressed name was unused. */
  lemma RemoveUndoesSet(env: Env, s: Store, n: string, b: Blob)
    requires n !in s.data
    requires env.parseVersion(b).None?
    requires ConsistentKey(env, n, b) !in s.consistent
    ensures Remove(env, Set(env, s, n, b), n) == s
  {
    var r := Remove(env, Set(env, s, n, b), n);
    assert r.data == s.data;
    assert r.consistent == s.consistent;
  }

  /** `Remove` purges only the content-addressed entry of the blob currently
      stored: the entry left by an earlier blob set under the same name
      survives (when its content-addressed name differs). */
  lemma RemoveKeepsEarlierDigestEntries(env: Env, s: Store, n: string, b1: Blob, b2: Blob)
    requires ConsistentKey(env, n, b1) != ConsistentKey(env, n, b2)
    ensures var r := Remove(env, Set(env, Set(env, s, n, b1), n, b2), n);
            ConsistentKey(env, n, b1) in r.consistent && r.consistent[ConsistentKey(env, n, b1)] == b1
  {
  }

  /** After `RemoveAll` the store equals a freshly constructed empty store and
      nothing is found. */
  lemma RemoveAllResets(env: Env, s: Store, name: string)
    ensures RemoveAll(s) == NewMemoryStore(env, None, [])
    ensures RemoveAll(s).data.Keys == {}
    ensures Get(RemoveAll(s), name) == Err(ErrMetaNotFound(name))
  {
  }

  /** A sized read of a stored name returns a prefix of what `Get` returns,
      never longer than the cap; a cap at least the blob's length returns the
      whole blob. */
  lemma GetSizedIsCappedGet(lim: Limits, s: Store, name: string, size: int)
    requires SizedReadInBounds(lim, s, name, size)
    ensures var r := GetSized(lim, s, name, size);
            name in s.data ==>
              && r.Ok?
              && r.value == s.data[name][..|r.value|]
              && |r.value| <= EffectiveSize(lim, size)
              && (|s.data[name]| <= EffectiveSize(lim, size) ==> r == Get(s, name))
    ensures var r := GetSized(lim, s, name, size);
            name !in s.data && name in s.consistent ==>
              && r.Ok?
              && r.value == s.consistent[name][..|r.value|]
              && |r.value| <= size
              && (|s.consistent[name]| <= size ==> r == Get(s, name))
  {
    if name in s.data {
      assert s.data[name][..|s.data[name]|] == s.data[name];
    } else if name in s.consistent {
      assert s.consistent[name][..|s.consistent[name]|] == s.consistent[name];
    }
  }

  /** Reading a stored name without a size limit yields at most the maximum
      download size: a larger blob is cut to exactly that many bytes. */
  lemma GetSizedNoLimitCapped(lim: Limits, s: Store, name: string)
    requires name in s.data
    requires lim.maxDownloadSize < |s.data[name]|
    ensures GetSized(lim, s, name, lim.noSizeLimit) == Ok(s.data[name][..lim.maxDownloadSize])
  {
  }

  /** The `consistent` branch of `GetSized` does not apply the maximum
      download size to the "no size limit" sentinel: a negative sentinel puts
      the read outside the inputs that slice in bounds (Go panics), and a
      non-negative one returns that many bytes instead of the maximum. */
  lemma GetSizedConsistentIgnoresCap(lim: Limits, s: Store, name: string)
    requires name !in s.data && name in s.consistent
    ensures lim.noSizeLimit < 0 ==> !SizedReadInBounds(lim, s, name, lim.noSizeLimit)
    ensures 0 <= lim.noSizeLimit < lim.maxDownloadSize < |s.consistent[name]| ==>
              && GetSized(lim, s, name, lim.noSizeLimit).value == s.consistent[name][..lim.noSizeLimit]
              && |GetSized(lim, s, name, lim.noSizeLimit).value| < lim.maxDownloadSize
  {
  }

  /** The intended sized read caps "no size limit" at the maximum download
      size whichever index holds the name, and it is defined there for every
      sentinel value. */
  lemma GetSizedCappedNoLimit(lim: Limits, s: Store, name: string)
    requires name in s.data || name in s.consistent
    ensures var r := GetSizedCapped(lim, s, name, lim.noSizeLimit);
            && r.Ok?
            && r.value == Get(s, name).value[..|r.value|]
            && |r.value| == Min(|Get(s, name).value|, lim.maxDownloadSize)
  {
  }

  /** The intended sized read agrees with `GetSized` wherever the latter
      differs only by branch: on every `data` hit, on every miss, and on any
      `consistent` hit read with an explicit size. */
  lemma GetSizedCappedAgrees(lim: Limits, s: Store, name: string, size: int)
    requires SizedReadInBounds(lim, s, name, size)
    requires name in s.data || name !in s.consistent || size != lim.noSizeLimit
    ensures GetSizedCapped(lim, s, name, size) == GetSized(lim, s, name, size)
  {
  }

  /** No entry's version alias is another entry's plain name. */
  predicate NoAliasClash(env: Env, metas: map<string, Blob>) {
    forall k1, k2 :: k1 in metas && k2 in metas && k1 != k2 ==> k2 !in Written(env, k1, metas[k1])
  }

  /** `data` holds `metas[k]` under every key `k` of `order` after the writes,
      when no entry's version alias is another entry's plain name. */
  lemma {:induction false} SetAllStoresEachEntry(env: Env, s: Store, metas: map<string, Blob>, order: seq<string>)
    requires forall i, j :: 0 <= i < j < |order| ==> order[i] != order[j]
    requires forall k :: k in order ==> k in metas
    requires NoAliasClash(env, metas)
    ensures forall k :: k in order ==>
              k in SetAll(env, s, metas, order).data && SetAll(env, s, metas, order).data[k] == metas[k]
    decreases |order|
  {
    if |order| > 0 {
      var k0 := order[0];
      var rest := order[1..];
      var s' := Set(env, s, k0, metas[k0]);
      var r := SetAll(env, s, metas, order);
      assert r == SetAll(env, s', metas, rest);
      TailOfDistinct(order);
      SetAllStoresEachEntry(env, s', metas, rest);
      WrittenByExcludes(env, metas, rest, k0);
      assert k0 in s'.data && s'.data[k0] == metas[k0];
      forall k | k in order
        ensures k in r.data && r.data[k] == metas[k]
      {
        if k != k0 {
          assert k in rest;
        }
      }
    }
  }

  lemma TailOfDistinct(order: seq<string>)
    requires 0 < |order|
    requires forall i, j :: 0 <= i < j < |order| ==> order[i] != order[j]
    ensures forall i, j :: 0 <= i < j < |order[1..]| ==> order[1..][i] != order[1..][j]
    ensures order[0] !in order[1..]
  {
    forall i, j | 0 <= i < j < |order[1..]|
      ensures order[1..][i] != order[1..][j]
    {
      assert order[1..][i] == order[i + 1] && order[1..][j] == order[j + 1];
    }
  }

  /** A name that is not in `order` and is no entry's version alias is not
      written by `Set` calls for the entries in `order`. */
  lemma {:induction false} WrittenByExcludes(env: Env, metas: map<string, Blob>, order: seq<string>, n: string)
    requires forall k :: k in order ==> k in metas
    requires n !in order
    requires forall k :: k in order ==> n !in Written(env, k, metas[k])
    ensures n !in WrittenBy(env, metas, order)
    decreases |order|
  {
    if |order| > 0 {
      WrittenByExcludes(env, metas, order[1..], n);
    }
  }

  /** With distinct content-addressed names, the entry of every key in `order`
      holds that key's blob after the writes. */
  lemma {:induction false} SetAllIndexesEachEntry(env: Env, s: Store, metas: map<string, Blob>, order: seq<string>)
    requires forall k :: k in order ==> k in metas
    requires ConsistentNamesDistinct(env, metas)
    ensures forall k :: k in order ==>
              SetAll(env, s, metas, order).consistent[ConsistentKey(env, k, metas[k])] == metas[k]
    decreases |order|
  {
    if |order| > 0 {
      var k0 := order[0];
      var rest := order[1..];
      var s' := Set(env, s, k0, metas[k0]);
      SetAllIndexesEachEntry(env, s', metas, rest);
      forall k | k in order
        ensures SetAll(env, s, metas, order).consistent[ConsistentKey(env, k, metas[k])] == metas[k]
      {
        if k != k0 && k in rest {
        } else if k0 !in rest {
          assert ConsistentKey(env, k0, metas[k0]) !in ConsistentKeysOf(env, metas, rest);
        }
      }
    }
  }

  /** When no entry's version alias is another entry's name, `SetMulti` makes
      every entry readable under its name, whatever the iteration order; with
      distinct content-addressed names each is readable there too. */
  lemma SetMultiStoresEachEntry(env: Env, s: Store, metas: map<string, Blob>, order: seq<string>)
    requires Enumerates(order, metas.Keys)
    requires NoAliasClash(env, metas)
    ensures forall k :: k in metas ==> Get(SetMulti(env, s, metas, order), k) == Ok(metas[k])
    ensures ConsistentNamesDistinct(env, metas) ==>
              forall k :: k in metas ==>
                SetMulti(env, s, metas, order).consistent[ConsistentKey(env, k, metas[k])] == metas[k]
  {
    SetAllStoresEachEntry(env, s, metas, order);
    if ConsistentNamesDistinct(env, metas) {
      SetAllIndexesEachEntry(env, s, metas, order);
    }
  }

  /** `SetMulti` depends on the iteration order: when blob `b` set under `n`
      has version `v` and another entry is named "<v>.<n>", that name ends up
      holding whichever of the two blobs was written last. */
  lemma SetMultiOrderMatters(env: Env, s: Store, n: string, b: Blob, other: Blob)
    requires env.parseVersion(b).Some?
    ensures var alias := VersionAlias(env.parseVersion(b).value, n);
            var metas := map[n := b, alias := other];
            && Enumerates([alias, n], metas.Keys)
            && Enumerates([n, alias], metas.Keys)
            && Get(SetMulti(env, s, metas, [alias, n]), alias) == Ok(b)
            && Get(SetMulti(env, s, metas, [n, alias]), alias) == Ok(other)
  {
    var alias := VersionAlias(env.parseVersion(b).value, n);
    VersionAliasDiffers(env.parseVersion(b).value, n);
    var metas := map[n := b, alias := other];
    assert metas[n] == b && metas[alias] == other;
    assert Enumerates([alias, n], metas.Keys);
    assert Enumerates([n, alias], metas.Keys);
    assert [alias, n][1..] == [n] && [n, alias][1..] == [alias];
    assert [n][1..] == [] && [alias][1..] == [];
    var first := Set(env, s, alias, other);
    assert SetAll(env, s, metas, [alias, n]) == SetAll(env, first, metas, [n]);
    assert SetAll(env, first, metas, [n]) == Set(env, first, n, b);
    var second := Set(env, s, n, b);
    assert SetAll(env, s, metas, [n, alias]) == SetAll(env, second, metas, [alias]);
    assert SetAll(env, second, metas, [alias]) == Set(env, second, alias, other);
  }

  /** The content-addressed side of a sequence of writes is exactly what the
      constructor's seeding loop builds from the same entries and order. */
  lemma {:induction false} SetAllIndexesLikeSeed(env: Env, s: Store, metas: map<string, Blob>, order: seq<string>)
    requires forall k :: k in order ==> k in metas
    ensures SetAll(env, s, metas, order).consistent == IndexSeed(env, s.consistent, metas, order)
    decreases |order|
  {
    if |order| > 0 {
      SetAllIndexesLikeSeed(env, Set(env, s, order[0], metas[order[0]]), metas, order[1..]);
    }
  }

  /** Without versioned metadata, the writes touch only the names in `order`. */
  lemma {:induction false} WrittenByWithoutVersions(env: Env, metas: map<string, Blob>, order: seq<string>)
    requires forall k :: k in order ==> k in metas
    requires forall k :: k in metas ==> env.parseVersion(metas[k]).None?
    ensures forall k :: k in WrittenBy(env, metas, order) ==> k in order
    decreases |order|
  {
    if |order| > 0 {
      WrittenByWithoutVersions(env, metas, order[1..]);
    }
  }

  /** Without versioned metadata, writing the entries of `seed` in an order
      that lists each key once into an empty store yields `data == seed`. */
  lemma SetAllWithoutVersionsYieldsSeed(env: Env, seed: map<string, Blob>, order: seq<string>)
    requires Enumerates(order, seed.Keys)
    requires forall k :: k in seed ==> env.parseVersion(seed[k]).None?
    ensures SetAll(env, Empty(), seed, order).data == seed
  {
    var r := SetAll(env, Empty(), seed, order);
    WrittenByWithoutVersions(env, seed, order);
    WrittenByCoversOrder(env, seed, order);
    assert r.data.Keys == seed.Keys;
    forall k1, k2 | k1 in seed && k2 in seed && k1 != k2
      ensures k2 !in Written(env, k1, seed[k1])
    {
      assert Written(env, k1, seed[k1]) == {k1};
    }
    SetAllStoresEachEntry(env, Empty(), seed, order);
  }

  /** The constructor seeded with `seed` builds the same store as writing the
      seed entries one by one into an empty store, provided no seed blob is
      versioned metadata (the constructor never adds version aliases). */
  lemma NewMemoryStoreIsSetMulti(env: Env, seed: map<string, Blob>, order: seq<string>)
    requires Enumerates(order, seed.Keys)
    requires forall k :: k in seed ==> env.parseVersion(seed[k]).None?
    ensures NewMemoryStore(env, Some(seed), order) == SetMulti(env, Empty(), seed, order)
  {
    var r := SetAll(env, Empty(), seed, order);
    assert SetMulti(env, Empty(), seed, order) == r;
    assert NewMemoryStore(env, Some(seed), order) == Store(seed, IndexSeed(env, map[], seed, order));
    SetAllIndexesLikeSeed(env, Empty(), seed, order);
    SetAllWithoutVersionsYieldsSeed(env, seed, order);
  }
}
