/**
 * The cached readers as objects, running alone: the fields behind the lock and what a call does
 * to them. The interleavings are in CacheProtocol, whose notions of contents and entries these
 * objects share. The two clock readings of a call are parameters.
 */
module CachedReaders {
  import opened Options
  import opened Counting
  import opened CacheProtocol

  // ---- Prompt bodies ----

  /** Seconds that a prompt cache lives. */
  const PROMPT_TTL: int := 60

  class CachedPromptTemplates {
    const fallback: map<string, string>
    var cache: Option<Entries>
    var exp: int

    constructor (fallback: map<string, string>)
      ensures this.fallback == fallback && cache == None
    {
      this.fallback, cache, exp := fallback, None, 0;
    }

    /** The baked-in default; a name without one reads as the empty string. */
    function Fallback(name: string): string {
      if name in fallback then fallback[name] else ""
    }

    function BodyOf(answer: Option<string>, name: string): string {
      match answer
      case Some(body) => body
      case None => Fallback(name)
    }

    /**
     * What a refresh gets for a name: the names are the seeded ones when the listing fails, and a
     * failed read skips its name.
     */
    function Fetched(store: Repo, listed: bool, failed: set<string>, name: string): Option<string> {
      if (name in fallback || listed) && name !in failed then Lookup(store, name) else None
    }

    /**
     * A cache in its time is served as it is. Otherwise every seeded or listed name is fetched, in
     * any order, and the call answers with the production body of the store, or the fallback;
     * `listed` and `failed` say which of the store's answers were errors.
     */
    method BodyOrFallback(store: Repo, listed: bool, failed: set<string>, now: int, later: int, name: string)
      returns (body: string)
      requires WellFormed(store)
      modifies this`cache, this`exp
      ensures old(cache).Some? && now < old(exp) ==>
                cache == old(cache) && exp == old(exp) && body == BodyOf(Cached(old(cache).value, name), name)
      ensures !(old(cache).Some? && now < old(exp)) ==>
                && cache.Some? && exp == later + 60
                && (forall n :: Cached(cache.value, n) == Fetched(store, listed, failed, n))
                && body == BodyOf(Fetched(store, listed, failed, name), name)
      ensures !(old(cache).Some? && now < old(exp)) ==>
                body == if name in store.values && name !in failed && (listed || name in fallback)
                        then store.values[name]
                        else if name in fallback then fallback[name] else ""
    {
      if cache.Some? && now < exp {
        return BodyOf(Cached(cache.value, name), name);
      }
      var names := fallback.Keys;
      if listed {
        names := names + store.names;
      }
      var loaded: Entries := map[];
      var pending := names;
      while pending != {}
        invariant pending <= names && loaded.Keys <= names - pending
        invariant forall n | n in names && n !in pending :: Cached(loaded, n) == Fetched(store, listed, failed, n)
        decreases pending
      {
        var n :| n in pending;
        pending := pending - {n};
        if n in failed {
          continue;
        }
        var doc := Lookup(store, n);
        if doc.Some? {
          loaded := loaded[n := doc];
        }
      }
      cache, exp := Some(loaded), later + PROMPT_TTL;
      body := BodyOf(Cached(loaded, name), name);
    }

    /** The next call refetches. */
    method Invalidate()
      modifies this`cache, this`exp
      ensures cache == None && exp == 0
    {
      cache, exp := None, 0;
    }
  }

  // ---- Active A/B tests ----

  class CachedABTests {
    const ttl: nat
    var active: Option<Entries>
    var exp: int

    constructor (ttl: nat)
      ensures this.ttl == (if ttl == 0 then 60 else ttl) && active == None
    {
      this.ttl := if ttl == 0 then 60 else ttl;
      active, exp := None, 0;
    }

    /**
     * A refresh loads the one name and keeps every other entry, however old, and extends the
     * life of all of them.
     */
    method ActiveForTemplate(store: Repo, now: int, later: int, name: string, ok: bool) returns (test: Option<string>)
      modifies this`active, this`exp
      ensures old(active).Some? && now < old(exp) ==>
                active == old(active) && exp == old(exp) && test == Cached(old(active).value, name)
      ensures !(old(active).Some? && now < old(exp)) && !ok ==>
                active == old(active) && exp == old(exp) && test == None
      ensures !(old(active).Some? && now < old(exp)) && ok ==>
                && active.Some? && exp == later + ttl && test == Lookup(store, name)
                && active.value == (if old(active).Some? then old(active).value else map[])[name := test]
    {
      if now < exp && active.Some? {
        return Cached(active.value, name);
      }
      if !ok {
        return None;
      }
      test := Lookup(store, name);
      if active.None? {
        active := Some(map[]);
      }
      active := Some(active.value[name := test]);
      exp := later + ttl;
    }
  }

  // ---- Routing ----

  datatype Tier = Tier(tier: string, provider: string)

  const VALID_TIERS: seq<string> := ["free", "paid", "founder", "beta"]

  /** The map of a routing table; a later row for the same tier overwrites an earlier one. */
  function TierMap(tiers: seq<Tier>): map<string, string> {
    if tiers == [] then map[]
    else TierMap(tiers[..|tiers| - 1])[tiers[|tiers| - 1].tier := tiers[|tiers| - 1].provider]
  }

  /** A tier is routed as its last row says. */
  lemma {:induction false} LastRowRoutes(tiers: seq<Tier>, tier: string)
    ensures tier in TierMap(tiers) <==> exists k :: 0 <= k < |tiers| && tiers[k].tier == tier
    ensures forall k | 0 <= k < |tiers| && tiers[k].tier == tier
                       && (forall j | k < j < |tiers| :: tiers[j].tier != tier) ::
              TierMap(tiers)[tier] == tiers[k].provider
    decreases |tiers|
  {
    if tiers != [] {
      var n := |tiers| - 1;
      LastRowRoutes(tiers[..n], tier);
      assert forall k | 0 <= k < n :: tiers[..n][k] == tiers[k];
      assert tiers[n].tier != tier ==>
          (tier in TierMap(tiers) <==> tier in TierMap(tiers[..n]));
    }
  }

  class CachedRoutingReader {
    const ttl: nat
    var tier: Option<map<string, string>>
    var exp: int

    constructor (ttl: nat)
      ensures this.ttl == (if ttl == 0 then 30 else ttl) && tier == None
    {
      this.ttl := if ttl == 0 then 30 else ttl;
      tier, exp := None, 0;
    }

    /** None stands for the store's error; a tier without a row reads as the empty string. */
    method ProviderForTier(store: Option<seq<Tier>>, now: int, later: int, name: string)
      returns (provider: Option<string>)
      modifies this`tier, this`exp
      ensures old(tier).Some? && now < old(exp) ==>
                tier == old(tier) && exp == old(exp) && provider == Some(ProviderIn(old(tier).value, name))
      ensures !(old(tier).Some? && now < old(exp)) && store.None? ==>
                tier == old(tier) && exp == old(exp) && provider == None
      ensures !(old(tier).Some? && now < old(exp)) && store.Some? ==>
                && tier == Some(TierMap(store.value)) && exp == later + ttl
                && provider == Some(ProviderIn(TierMap(store.value), name))
    {
      if tier.Some? && now < exp {
        return Some(ProviderIn(tier.value, name));
      }
      if store.None? {
        return None;
      }
      var m: map<string, string> := map[];
      for k := 0 to |store.value|
        invariant m == TierMap(store.value[..k])
      {
        assert store.value[..k + 1][..k] == store.value[..k];
        m := m[store.value[k].tier := store.value[k].provider];
      }
      assert store.value[..|store.value|] == store.value;
      tier, exp := Some(m), later + ttl;
      provider := Some(ProviderIn(m, name));
    }
  }

  function ProviderIn(m: map<string, string>, name: string): string {
    if name in m then m[name] else ""
  }

  /** Every known tier has exactly one row, and every row a provider from the allow-list. */
  ghost predicate GoodRows(known: seq<string>, tiers: seq<Tier>, allowed: set<string>) {
    && |tiers| == |known|
    && (forall k | 0 <= k < |tiers| ::
         tiers[k].tier in known && tiers[k].provider != "" && tiers[k].provider in allowed)
    && (forall j, k | 0 <= j < k < |tiers| :: tiers[j].tier != tiers[k].tier)
  }

  ghost predicate GoodTable(tiers: seq<Tier>, allowed: set<string>) {
    GoodRows(VALID_TIERS, tiers, allowed)
  }

  /** ValidateRoutingUpdate, for any list of known tiers. */
  method ValidateRows(known: seq<string>, tiers: seq<Tier>, allowedProviders: seq<string>) returns (ok: bool)
    ensures ok <==> GoodRows(known, tiers, set p | p in allowedProviders)
  {
    if |tiers| != |known| {
      return false;
    }
    var seen: map<string, bool> := map[];
    for k := 0 to |known|
      invariant forall t :: t in seen <==> t in known[..k]
      invariant forall t | t in seen :: !seen[t]
    {
      seen := seen[known[k] := false];
    }
    assert known[..|known|] == known;
    for k := 0 to |tiers|
      invariant forall t :: t in seen <==> t in known
      invariant forall t | t in seen :: seen[t] <==> exists j :: 0 <= j < k && tiers[j].tier == t
      invariant forall j | 0 <= j < k ::
                  tiers[j].tier in known && tiers[j].provider != "" && tiers[j].provider in allowedProviders
      invariant forall i, j | 0 <= i < j < k :: tiers[i].tier != tiers[j].tier
    {
      var t := tiers[k];
      if t.tier !in seen {
        return false;
      }
      if seen[t.tier] {
        return false;
      }
      seen := seen[t.tier := true];
      if t.provider == "" {
        return false;
      }
      if t.provider !in allowedProviders {
        return false;
      }
    }
    ok := true;
  }

  /** ValidateRoutingUpdate: the known tiers are the four of the program. */
  method ValidateRoutingUpdate(tiers: seq<Tier>, allowedProviders: seq<string>) returns (ok: bool)
    ensures ok <==> GoodTable(tiers, set p | p in allowedProviders)
  {
    ok := ValidateRows(VALID_TIERS, tiers, allowedProviders);
  }

  lemma {:induction false} TierMapRow(tiers: seq<Tier>, k: nat)
    requires k < |tiers| && forall i, j | 0 <= i < j < |tiers| :: tiers[i].tier != tiers[j].tier
    ensures tiers[k].tier in TierMap(tiers) && TierMap(tiers)[tiers[k].tier] == tiers[k].provider
    decreases |tiers|
  {
    if k < |tiers| - 1 {
      TierMapRow(tiers[..|tiers| - 1], k);
    }
  }

  lemma {:induction false} TierMapKeys(tiers: seq<Tier>)
    ensures TierMap(tiers).Keys == set k | 0 <= k < |tiers| :: tiers[k].tier
    decreases |tiers|
  {
    if tiers != [] {
      var n := |tiers| - 1;
      TierMapKeys(tiers[..n]);
      forall x
        ensures x in TierMap(tiers).Keys <==> x in set k | 0 <= k < |tiers| :: tiers[k].tier
      {
        if x in TierMap(tiers[..n]).Keys {
          var k :| 0 <= k < n && tiers[..n][k].tier == x;
          assert tiers[k].tier == x;
        }
        if k :| 0 <= k < n && tiers[k].tier == x {
          assert tiers[..n][k].tier == x;
        }
      }
    }
  }

  lemma FourTiersCoverAll(names: set<string>)
    requires names <= {"free", "paid", "founder", "beta"} && |names| == 4
    ensures names == {"free", "paid", "founder", "beta"}
  {
    var all := {"free", "paid", "founder", "beta"};
    assert |all| == 4;
    SubsetSize(names, all);
  }

  lemma {:induction false} DistinctNames(tiers: seq<Tier>)
    requires forall i, j | 0 <= i < j < |tiers| :: tiers[i].tier != tiers[j].tier
    ensures |TierMap(tiers)| == |tiers|
    decreases |tiers|
  {
    if tiers != [] {
      var n := |tiers| - 1;
      DistinctNames(tiers[..n]);
      TierMapKeys(tiers[..n]);
      assert tiers[n].tier !in TierMap(tiers[..n]);
    }
  }

  /** An accepted table routes every known tier, and each to the provider of its own row. */
  lemma GoodTableRoutesEveryTier(tiers: seq<Tier>, allowed: set<string>)
    requires GoodTable(tiers, allowed)
    ensures TierMap(tiers).Keys == {"free", "paid", "founder", "beta"}
    ensures forall k | 0 <= k < |tiers| :: ProviderIn(TierMap(tiers), tiers[k].tier) == tiers[k].provider
    ensures forall t | t in VALID_TIERS ::
              ProviderIn(TierMap(tiers), t) in allowed && ProviderIn(TierMap(tiers), t) != ""
  {
    TierMapKeys(tiers);
    DistinctNames(tiers);
    assert |TierMap(tiers).Keys| == |TierMap(tiers)|;
    FourTiersCoverAll(TierMap(tiers).Keys);
    forall k | 0 <= k < |tiers|
      ensures ProviderIn(TierMap(tiers), tiers[k].tier) == tiers[k].provider
    {
      TierMapRow(tiers, k);
    }
    forall t | t in VALID_TIERS
      ensures ProviderIn(TierMap(tiers), t) in allowed && ProviderIn(TierMap(tiers), t) != ""
    {
      assert t in TierMap(tiers).Keys;
      var k :| 0 <= k < |tiers| && tiers[k].tier == t;
      TierMapRow(tiers, k);
    }
  }
}
