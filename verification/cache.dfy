/**
 * The creature record cache of assets/js/app.js (`cache`) and `ensurePokemon`,
 * which normalises its argument to a cache key, answers from the cache when it
 * can and otherwise fetches the record and registers it under both its id and
 * its name. The network is the function parameter `fetch`; the persisted
 * copy in the browser's local storage is not part of this model.
 */
module PokemonCache {
  import opened Wrappers
  import opened Text

  /** The fields of a fetched creature record that the cache uses. */
  datatype Pokemon = Pokemon(id: int, name: string)

  /** Why a fetch failed: no response, or a response with a non-2xx status. */
  datatype FetchError = NetworkError | ResponseError(status: int)

  /** The in-memory map from string key to record. */
  type Cache = map<string, Pokemon>

  /** What one call did: its result, the cache afterwards, and the URL it requested, if any. */
  datatype Outcome = Outcome(result: Result<Pokemon, FetchError>, cache: Cache, requested: Option<string>)

  /** `API.pokemon('')`: the resource location a bare key is appended to. */
  const PokemonBase := "https://pokeapi.co/api/v2/pokemon/"

  // ---------------------------------------------------------------------------
  // Key normalisation: an `http` or `https` location loses everything up to its
  // last `/pokemon/`, then one trailing `/` is dropped
  // ---------------------------------------------------------------------------

  /** The characters a regular-expression `.` does not match. */
  predicate IsLineTerminator(c: char) {
    c == '\n' || c == '\r' || c == '\U{2028}' || c == '\U{2029}'
  }

  /** Length of the `https?://` the string starts with, or 0 when it starts with neither. */
  function SchemeLength(s: string): (n: nat)
    ensures n == 0 || n == 7 || n == 8
    ensures n > 0 ==> StartsWith(s, "http")
  {
    if StartsWith(s, "https://") then 8 else if StartsWith(s, "http://") then 7 else 0
  }

  const Marker := "/pokemon/"

  /**
   * `s[..n]` is a match of the pattern: the scheme, one or more characters
   * other than line terminators, then `/pokemon/` ending at `n`.
   */
  predicate MatchEndsAt(s: string, n: nat) {
    var p := SchemeLength(s);
    && p > 0
    && p + 1 + |Marker| <= n <= |s|
    && s[n - |Marker|..n] == Marker
    && forall i :: p <= i < n - |Marker| ==> !IsLineTerminator(s[i])
  }

  /** The largest match end at or below `n`, if any. */
  function LastMatchEnd(s: string, n: nat): (r: Option<nat>)
    requires n <= |s|
    ensures r.Some? ==> r.value <= n && MatchEndsAt(s, r.value)
    ensures r.Some? ==> forall m :: r.value < m <= n ==> !MatchEndsAt(s, m)
    ensures r.None? ==> forall m :: 0 <= m <= n ==> !MatchEndsAt(s, m)
    decreases n
  {
    if MatchEndsAt(s, n) then Some(n)
    else if n == 0 then None
    else LastMatchEnd(s, n - 1)
  }

  /**
   * The first replacement: the greedy `.+` makes the match end at the last
   * `/pokemon/` it can reach, and everything up to there is removed; a string
   * that does not match is returned unchanged.
   */
  function StripPokemonPrefix(s: string): (r: string)
    ensures (forall m :: 0 <= m <= |s| ==> !MatchEndsAt(s, m)) ==> r == s
    ensures forall n :: 0 <= n <= |s| && MatchEndsAt(s, n) && (forall m :: n < m <= |s| ==> !MatchEndsAt(s, m)) ==> r == s[n..]
  {
    var end := LastMatchEnd(s, |s|);
    if end.Some? then s[end.value..] else s
  }

  /** The second replacement: one trailing `/` is removed. */
  function TrimTrailingSlash(s: string): (r: string)
    ensures |s| > 0 && s[|s| - 1] == '/' ==> r + "/" == s
    ensures !(|s| > 0 && s[|s| - 1] == '/') ==> r == s
  {
    if |s| > 0 && s[|s| - 1] == '/' then s[..|s| - 1] else s
  }

  /** The cache key of an argument: an id, a name, or a resource URL. */
  function NormalizeKey(arg: string): string {
    TrimTrailingSlash(StripPokemonPrefix(arg))
  }

  /** A key that is not an `http…` location and does not end in `/` is its own normal form. */
  lemma NormalizeKeyPlain(s: string)
    requires !StartsWith(s, "http")
    requires |s| == 0 || s[|s| - 1] != '/'
    ensures NormalizeKey(s) == s
  {
    assert SchemeLength(s) == 0;
  }

  /** The decimal form of an id is its own cache key. */
  lemma NormalizeKeyOfId(id: int)
    ensures NormalizeKey(IntToString(id)) == IntToString(id)
  {
    var s := IntToString(id);
    assert s[0] == 'h' ==> false by {
      if id < 0 { assert s[0] == '-'; } else { assert IsDigit(s[0]); }
    }
    assert IsDigit(s[|s| - 1]) by {
      if id < 0 { assert s[|s| - 1] == NatToString(-id)[|NatToString(-id)| - 1]; }
    }
    NormalizeKeyPlain(s);
  }

  /**
   * The resource location of a key, with or without the trailing `/` the API
   * puts on its own links, normalises back to the key, provided the key holds
   * no `/` and is not `pokemon` itself (which the greedy match would swallow).
   */
  lemma NormalizeKeyOfUrl(k: string)
    requires '/' !in k && k != "pokemon"
    ensures NormalizeKey(PokemonBase + k) == k
    ensures NormalizeKey(PokemonBase + k + "/") == k
  {
    UrlMatch(k, PokemonBase + k);
    UrlMatch(k, PokemonBase + k + "/");
    assert (PokemonBase + k + "/")[|PokemonBase|..] == k + "/";
    assert (PokemonBase + k)[|PokemonBase|..] == k;
  }

  /** In such a location the only match ends right after the base. */
  lemma UrlMatch(k: string, s: string)
    requires '/' !in k && k != "pokemon"
    requires s == PokemonBase + k || s == PokemonBase + k + "/"
    ensures MatchEndsAt(s, |PokemonBase|)
    ensures forall m :: |PokemonBase| < m <= |s| ==> !MatchEndsAt(s, m)
  {
    var b := |PokemonBase|;
    assert s[..b] == PokemonBase;
    assert PokemonBase[..8] == "https://";
    assert s[..8] == PokemonBase[..8];
    assert SchemeLength(s) == 8;
    assert s[b - |Marker|..b] == PokemonBase[b - |Marker|..b] == Marker;
    forall m | b < m <= |s| ensures !MatchEndsAt(s, m) {
      NoLaterMarker(k, s, m);
    }
  }

  /** After the base, no window of the location reads `/pokemon/`. */
  lemma NoLaterMarker(k: string, s: string, m: nat)
    requires '/' !in k && k != "pokemon"
    requires s == PokemonBase + k || s == PokemonBase + k + "/"
    requires |PokemonBase| < m <= |s|
    ensures s[m - |Marker|..m] != Marker
  {
    var b := |PokemonBase|;
    var w := s[m - |Marker|..m];
    assert forall i :: b <= i < b + |k| ==> s[i] == k[i - b];
    if m - 1 < b + |k| {
      assert w[8] == s[m - 1] == k[m - 1 - b] != Marker[8];
    } else {
      assert s == PokemonBase + k + "/" && m == |s| == b + |k| + 1;
      if |k| >= 8 {
        assert w[0] == s[m - 9] == k[m - 9 - b] != Marker[0];
      } else if |k| == 7 {
        var j :| 0 <= j < 7 && k[j] != "pokemon"[j];
        assert w[j + 1] == s[b + j] == k[j];
        assert Marker[j + 1] == "pokemon"[j];
      } else {
        var j := 7 - |k|;
        assert w[j] == s[b - 1] == '/';
        assert Marker[j] != '/';
      }
    }
  }

  // ---------------------------------------------------------------------------
  // The cache and ensurePokemon
  // ---------------------------------------------------------------------------

  /** `cache.get(k)` on the in-memory map: the record stored under `k`, if any. */
  function Get(cache: Cache, k: string): (r: Option<Pokemon>)
    ensures r.Some? <==> k in cache
    ensures r.Some? ==> r.value == cache[k]
  {
    if k in cache then Some(cache[k]) else None
  }

  /** Write-back: the record stored under its decimal id and under its name. */
  function Register(cache: Cache, p: Pokemon): (c: Cache)
    ensures c.Keys == cache.Keys + {IntToString(p.id), p.name}
    ensures c[IntToString(p.id)] == p && c[p.name] == p
    ensures forall k :: k in cache && k != IntToString(p.id) && k != p.name ==> c[k] == cache[k]
  {
    cache[IntToString(p.id) := p][p.name := p]
  }

  /** The location fetched on a miss: the argument itself when it starts with `http`, else the API location of the key. */
  function RequestUrl(arg: string): (url: string)
    ensures StartsWith(arg, "http") ==> url == arg
    ensures !StartsWith(arg, "http") ==> url == PokemonBase + NormalizeKey(arg)
  {
    if StartsWith(arg, "http") then arg else PokemonBase + NormalizeKey(arg)
  }

  /**
   * `ensurePokemon(arg)`: a cached record is returned without any request;
   * otherwise the record is fetched and, on success, registered under its id
   * and its name; a failed fetch leaves the cache as it was.
   */
  function EnsurePokemon(cache: Cache, arg: string, fetch: string -> Result<Pokemon, FetchError>): (o: Outcome)
    ensures NormalizeKey(arg) in cache ==> o == Outcome(Success(cache[NormalizeKey(arg)]), cache, None)
    ensures NormalizeKey(arg) !in cache ==> o.requested == Some(RequestUrl(arg)) && o.result == fetch(RequestUrl(arg))
    ensures NormalizeKey(arg) !in cache && o.result.Success? ==> o.cache == Register(cache, o.result.value)
    ensures o.result.Failure? ==> o.cache == cache
  {
    var key := NormalizeKey(arg);
    match Get(cache, key)
    case Some(p) => Outcome(Success(p), cache, None)
    case None =>
      var url := RequestUrl(arg);
      match fetch(url)
      case Success(p) => Outcome(Success(p), Register(cache, p), Some(url))
      case Failure(e) => Outcome(Failure(e), cache, Some(url))
  }

  /**
   * For every record in the cache, its id key and its name key are both present.
   * They need not hold that record: a later record with the same name overwrites the name key.
   */
  predicate BothKeysRegistered(cache: Cache) {
    forall p :: p in cache.Values ==> IntToString(p.id) in cache && p.name in cache
  }

  /** Every record is stored only under its own id or its own name. */
  predicate KeysBelongToRecords(cache: Cache) {
    forall k {:trigger cache[k]} :: k in cache ==> k == IntToString(cache[k].id) || k == cache[k].name
  }

  /** Registering a record keeps both cache invariants. */
  lemma RegisterKeepsInvariants(cache: Cache, p: Pokemon)
    requires BothKeysRegistered(cache) && KeysBelongToRecords(cache)
    ensures BothKeysRegistered(Register(cache, p)) && KeysBelongToRecords(Register(cache, p))
  {
    var c := Register(cache, p);
    forall v | v in c.Values ensures IntToString(v.id) in c && v.name in c {
      var k :| k in c && c[k] == v;
      if k != p.name && k != IntToString(p.id) {
        assert v == cache[k] && v in cache.Values;
      }
    }
    forall k | k in c ensures k == IntToString(c[k].id) || k == c[k].name {
      if k != p.name && k != IntToString(p.id) {
        assert c[k] == cache[k];
      }
    }
  }

  /** `ensurePokemon` keeps both cache invariants and never forgets a key. */
  lemma EnsurePokemonKeepsInvariants(cache: Cache, arg: string, fetch: string -> Result<Pokemon, FetchError>)
    requires BothKeysRegistered(cache) && KeysBelongToRecords(cache)
    ensures BothKeysRegistered(EnsurePokemon(cache, arg, fetch).cache)
    ensures KeysBelongToRecords(EnsurePokemon(cache, arg, fetch).cache)
    ensures cache.Keys <= EnsurePokemon(cache, arg, fetch).cache.Keys
  {
    var o := EnsurePokemon(cache, arg, fetch);
    if NormalizeKey(arg) !in cache && o.result.Success? {
      RegisterKeepsInvariants(cache, o.result.value);
    }
  }

  /**
   * Once a record has been fetched, asking again by its id, by its name (when
   * the name is its own key) or by its API location returns it with no
   * request, whatever the network would answer.
   */
  lemma FetchedThenCached(cache: Cache, arg: string, fetch: string -> Result<Pokemon, FetchError>,
                          again: string -> Result<Pokemon, FetchError>)
    requires NormalizeKey(arg) !in cache
    requires fetch(RequestUrl(arg)).Success?
    ensures var p := fetch(RequestUrl(arg)).value;
            var c := EnsurePokemon(cache, arg, fetch).cache;
            && EnsurePokemon(c, IntToString(p.id), again) == Outcome(Success(p), c, None)
            && EnsurePokemon(c, PokemonBase + IntToString(p.id) + "/", again) == Outcome(Success(p), c, None)
            && (NormalizeKey(p.name) == p.name ==> EnsurePokemon(c, p.name, again) == Outcome(Success(p), c, None))
  {
    var p := fetch(RequestUrl(arg)).value;
    var c := EnsurePokemon(cache, arg, fetch).cache;
    var idKey := IntToString(p.id);
    assert c == Register(cache, p);
    IdKeyIsPlain(p.id);
    NormalizeKeyOfId(p.id);
    NormalizeKeyOfUrl(idKey);
    HitReturnsCached(c, idKey, p, again);
    HitReturnsCached(c, PokemonBase + idKey + "/", p, again);
    if NormalizeKey(p.name) == p.name {
      HitReturnsCached(c, p.name, p, again);
    }
  }

  /** The decimal rendering of an id holds no `/` and is not the word `pokemon`. */
  lemma IdKeyIsPlain(id: int)
    ensures '/' !in IntToString(id) && IntToString(id) != "pokemon"
  {
    var idKey := IntToString(id);
    assert idKey[0] != 'p';
    forall i | 0 <= i < |idKey| ensures idKey[i] != '/' {
      if id < 0 && i > 0 {
        assert idKey[i] == NatToString(-id)[i - 1];
      }
    }
  }

  /** An argument whose key is cached returns the cached record with no request. */
  lemma HitReturnsCached(c: Cache, arg: string, p: Pokemon, fetch: string -> Result<Pokemon, FetchError>)
    requires NormalizeKey(arg) in c && c[NormalizeKey(arg)] == p
    ensures EnsurePokemon(c, arg, fetch) == Outcome(Success(p), c, None)
  {
  }

  /**
   * A miss whose fetched record is stored under neither the key asked for:
   * asking again the same way requests the record again.
   */
  lemma MissWithForeignKeyRefetches(cache: Cache, arg: string, fetch: string -> Result<Pokemon, FetchError>)
    requires NormalizeKey(arg) !in cache
    requires fetch(RequestUrl(arg)).Success?
    requires NormalizeKey(arg) != IntToString(fetch(RequestUrl(arg)).value.id)
    requires NormalizeKey(arg) != fetch(RequestUrl(arg)).value.name
    ensures EnsurePokemon(EnsurePokemon(cache, arg, fetch).cache, arg, fetch).requested == Some(RequestUrl(arg))
  {
  }

  // ---------------------------------------------------------------------------
  // Prefetching the names of the evolution paths
  // ---------------------------------------------------------------------------

  /** The record an outcome delivers, or `None` when the request failed (the `catch` turning an error into `null`). */
  function Resolved(o: Outcome): (r: Option<Pokemon>)
    ensures r.Some? <==> o.result.Success?
    ensures r.Some? ==> r.value == o.result.value
  {
    if o.result.Success? then Some(o.result.value) else None
  }

  /** The location an outcome requested, as a list of zero or one locations. */
  function Requests(o: Outcome): (r: seq<string>)
    ensures |r| <= 1
    ensures r == [] <==> o.requested.None?
  {
    if o.requested.Some? then [o.requested.value] else []
  }

  /**
   * The names resolved one after another by `step`, each failure turned into
   * `None`: the results in the order of the names, the cache afterwards and
   * the locations requested.
   */
  function ResolveSeq(step: (Cache, string) -> Outcome, cache: Cache, names: seq<string>)
    : (r: (seq<Option<Pokemon>>, Cache, seq<string>))
    ensures |r.0| == |names| && |r.2| <= |names|
    decreases |names|
  {
    if |names| == 0 then ([], cache, [])
    else
      var o := step(cache, names[0]);
      var rest := ResolveSeq(step, o.cache, names[1..]);
      ([Resolved(o)] + rest.0, rest.1, Requests(o) + rest.2)
  }

  /** The cache just before the name at position `i` is resolved. */
  function CacheAt(step: (Cache, string) -> Outcome, cache: Cache, names: seq<string>, i: nat): Cache
    requires i <= |names|
    decreases i
  {
    if i == 0 then cache
    else CacheAt(step, step(cache, names[0]).cache, names[1..], i - 1)
  }

  /** Result `i` is what the step gives for name `i` against the cache left by the names before it. */
  lemma {:induction false} ResolveSeqAt(step: (Cache, string) -> Outcome, cache: Cache, names: seq<string>, i: nat)
    requires i < |names|
    ensures ResolveSeq(step, cache, names).0[i] == Resolved(step(CacheAt(step, cache, names, i), names[i]))
    decreases i
  {
    if i > 0 {
      var c := step(cache, names[0]).cache;
      var t := names[1..];
      ResolveSeqAt(step, c, t, i - 1);
      assert ResolveSeq(step, cache, names).0[i] == ResolveSeq(step, c, t).0[i - 1];
      assert t[i - 1] == names[i];
    }
  }

  /** The cache after resolving is the one left by all the names. */
  lemma {:induction false} ResolveSeqFinalCache(step: (Cache, string) -> Outcome, cache: Cache, names: seq<string>)
    ensures ResolveSeq(step, cache, names).1 == CacheAt(step, cache, names, |names|)
    decreases |names|
  {
    if |names| > 0 {
      ResolveSeqFinalCache(step, step(cache, names[0]).cache, names[1..]);
    }
  }

  /** `ensurePokemon` against a fixed network, as one step over the cache. */
  function Resolver(fetch: string -> Result<Pokemon, FetchError>): (Cache, string) -> Outcome {
    (c: Cache, n: string) => EnsurePokemon(c, n, fetch)
  }

  /**
   * The names of the evolution paths resolved with `ensurePokemon`, one after
   * another rather than interleaved; no cache key is lost on the way.
   */
  function ResolveAll(cache: Cache, names: seq<string>, fetch: string -> Result<Pokemon, FetchError>)
    : (r: (seq<Option<Pokemon>>, Cache, seq<string>))
    ensures |r.0| == |names| && |r.2| <= |names|
    ensures cache.Keys <= r.1.Keys
  {
    ResolveSeqKeepsKeys(cache, names, fetch);
    ResolveSeq(Resolver(fetch), cache, names)
  }

  lemma {:induction false} ResolveSeqKeepsKeys(cache: Cache, names: seq<string>, fetch: string -> Result<Pokemon, FetchError>)
    ensures cache.Keys <= ResolveSeq(Resolver(fetch), cache, names).1.Keys
    decreases |names|
  {
    if |names| > 0 {
      var o := EnsurePokemon(cache, names[0], fetch);
      assert Resolver(fetch)(cache, names[0]) == o;
      EnsurePokemonKeepsKeys(cache, names[0], fetch);
      ResolveSeqKeepsKeys(o.cache, names[1..], fetch);
    }
  }

  lemma EnsurePokemonKeepsKeys(cache: Cache, arg: string, fetch: string -> Result<Pokemon, FetchError>)
    ensures cache.Keys <= EnsurePokemon(cache, arg, fetch).cache.Keys
  {
  }

  /**
   * Result `i` belongs to name `i`: it is what `ensurePokemon` gives for that
   * name against the cache left by the names before it, and the final cache
   * is the one left by all of them.
   */
  lemma ResolveAllAligned(cache: Cache, names: seq<string>, fetch: string -> Result<Pokemon, FetchError>)
    ensures forall i :: 0 <= i < |names| ==>
      ResolveAll(cache, names, fetch).0[i]
        == Resolved(EnsurePokemon(CacheAt(Resolver(fetch), cache, names, i), names[i], fetch))
    ensures ResolveAll(cache, names, fetch).1 == CacheAt(Resolver(fetch), cache, names, |names|)
  {
    forall i | 0 <= i < |names|
      ensures ResolveAll(cache, names, fetch).0[i]
        == Resolved(EnsurePokemon(CacheAt(Resolver(fetch), cache, names, i), names[i], fetch))
    {
      ResolveSeqAt(Resolver(fetch), cache, names, i);
    }
    ResolveSeqFinalCache(Resolver(fetch), cache, names);
  }

  /** A name comes back as `None` only when the location asked for it failed. */
  lemma ResolveAllFailures(cache: Cache, names: seq<string>, fetch: string -> Result<Pokemon, FetchError>)
    ensures forall i :: 0 <= i < |names| && ResolveAll(cache, names, fetch).0[i].None? ==>
      fetch(RequestUrl(names[i])).Failure?
  {
    ResolveAllAligned(cache, names, fetch);
    forall i | 0 <= i < |names| && ResolveAll(cache, names, fetch).0[i].None?
      ensures fetch(RequestUrl(names[i])).Failure?
    {
      var o := EnsurePokemon(CacheAt(Resolver(fetch), cache, names, i), names[i], fetch);
      assert o.result.Failure?;
    }
  }

  /** Resolving keeps both cache invariants, and for every record resolved, its id key and its name key are both present afterwards. */
  lemma {:induction false} ResolveAllRegisters(cache: Cache, names: seq<string>, fetch: string -> Result<Pokemon, FetchError>)
    requires BothKeysRegistered(cache) && KeysBelongToRecords(cache)
    ensures BothKeysRegistered(ResolveAll(cache, names, fetch).1) && KeysBelongToRecords(ResolveAll(cache, names, fetch).1)
    ensures forall p :: Some(p) in ResolveAll(cache, names, fetch).0 ==>
      IntToString(p.id) in ResolveAll(cache, names, fetch).1 && p.name in ResolveAll(cache, names, fetch).1
    decreases |names|
  {
    if |names| > 0 {
      var o := EnsurePokemon(cache, names[0], fetch);
      EnsurePokemonKeepsInvariants(cache, names[0], fetch);
      ResolveAllRegisters(o.cache, names[1..], fetch);
      var r := ResolveAll(cache, names, fetch);
      var rest := ResolveAll(o.cache, names[1..], fetch);
      assert r.1 == rest.1;
      if o.result.Success? {
        var p := o.result.value;
        assert IntToString(p.id) in o.cache && p.name in o.cache by {
          if NormalizeKey(names[0]) in cache {
            assert p in cache.Values;
          }
        }
      }
    }
  }

  /**
   * With every name already cached, resolving requests nothing, leaves the
   * cache as it was and returns the cached records in order.
   */
  lemma {:induction false} ResolveAllWarm(cache: Cache, names: seq<string>, fetch: string -> Result<Pokemon, FetchError>)
    requires forall i :: 0 <= i < |names| ==> NormalizeKey(names[i]) in cache
    ensures ResolveAll(cache, names, fetch).2 == []
    ensures ResolveAll(cache, names, fetch).1 == cache
    ensures forall i :: 0 <= i < |names| ==> ResolveAll(cache, names, fetch).0[i] == Some(cache[NormalizeKey(names[i])])
    decreases |names|
  {
    if |names| > 0 {
      var t := names[1..];
      var p := cache[NormalizeKey(names[0])];
      HitReturnsCached(cache, names[0], p, fetch);
      assert Resolver(fetch)(cache, names[0]) == Outcome(Success(p), cache, None);
      ResolveAllWarm(cache, t, fetch);
      var rest := ResolveAll(cache, t, fetch);
      assert ResolveAll(cache, names, fetch) == ([Some(p)] + rest.0, rest.1, [] + rest.2);
      assert forall i :: 0 < i < |names| ==> t[i - 1] == names[i];
    }
  }

  /** `m` indexes the records of `rs` by name, each name giving the last record with it. */
  ghost predicate IndexesLast(rs: seq<Option<Pokemon>>, m: map<string, Pokemon>) {
    && (forall n :: n in m <==> exists i :: 0 <= i < |rs| && rs[i].Some? && rs[i].value.name == n)
    && (forall n :: n in m ==> m[n].name == n)
    && (forall n :: n in m ==>
          exists j :: 0 <= j < |rs| && rs[j] == Some(m[n]) &&
            (forall k :: j < k < |rs| && rs[k].Some? ==> rs[k].value.name != n))
  }

  /**
   * The records that came back, keyed by name; failures are dropped, and
   * of two records with the same name the later one wins.
   */
  function ByName(rs: seq<Option<Pokemon>>): (m: map<string, Pokemon>)
    ensures forall n :: n in m <==> exists i :: 0 <= i < |rs| && rs[i].Some? && rs[i].value.name == n
    ensures forall n :: n in m ==> m[n].name == n
    ensures forall n :: n in m ==>
      exists j :: 0 <= j < |rs| && rs[j] == Some(m[n]) &&
        (forall k :: j < k < |rs| && rs[k].Some? ==> rs[k].value.name != n)
    decreases |rs|
  {
    if |rs| == 0 then map[]
    else
      var init := rs[..|rs| - 1];
      var m := ByName(init);
      var last := rs[|rs| - 1];
      assert rs == init + [last];
      ByNameSnoc(init, last, m);
      if last.Some? then m[last.value.name := last.value] else m
  }

  /** Adding one more result keeps the index: a new record replaces the one under its name. */
  lemma ByNameSnoc(init: seq<Option<Pokemon>>, last: Option<Pokemon>, m: map<string, Pokemon>)
    requires IndexesLast(init, m)
    ensures IndexesLast(init + [last], if last.Some? then m[last.value.name := last.value] else m)
  {
    ByNameSnocKeys(init, last, m);
    ByNameSnocLast(init, last, m);
  }

  lemma ByNameSnocKeys(init: seq<Option<Pokemon>>, last: Option<Pokemon>, m: map<string, Pokemon>)
    requires forall n :: n in m <==> exists i :: 0 <= i < |init| && init[i].Some? && init[i].value.name == n
    ensures var rs, m' := init + [last], if last.Some? then m[last.value.name := last.value] else m;
      forall n :: n in m' <==> exists i :: 0 <= i < |rs| && rs[i].Some? && rs[i].value.name == n
  {
    var rs := init + [last];
    var m' := if last.Some? then m[last.value.name := last.value] else m;
    forall n ensures n in m' <==> exists i :: 0 <= i < |rs| && rs[i].Some? && rs[i].value.name == n {
      if n in m' {
        if last.Some? && n == last.value.name {
          assert rs[|init|] == last;
        } else {
          var i :| 0 <= i < |init| && init[i].Some? && init[i].value.name == n;
          assert rs[i] == init[i];
        }
      } else {
        forall i | 0 <= i < |rs| ensures !(rs[i].Some? && rs[i].value.name == n) {
          if i < |init| { assert rs[i] == init[i]; }
        }
      }
    }
  }

  lemma ByNameSnocLast(init: seq<Option<Pokemon>>, last: Option<Pokemon>, m: map<string, Pokemon>)
    requires forall n :: n in m ==>
      exists j :: 0 <= j < |init| && init[j] == Some(m[n]) &&
        (forall k :: j < k < |init| && init[k].Some? ==> init[k].value.name != n)
    ensures var rs, m' := init + [last], if last.Some? then m[last.value.name := last.value] else m;
      forall n :: n in m' ==>
        exists j :: 0 <= j < |rs| && rs[j] == Some(m'[n]) &&
          (forall k :: j < k < |rs| && rs[k].Some? ==> rs[k].value.name != n)
  {
    var rs := init + [last];
    var m' := if last.Some? then m[last.value.name := last.value] else m;
    forall n | n in m'
      ensures exists j :: 0 <= j < |rs| && rs[j] == Some(m'[n]) &&
                          (forall k :: j < k < |rs| && rs[k].Some? ==> rs[k].value.name != n)
    {
      if last.Some? && n == last.value.name {
        assert rs[|init|] == Some(m'[n]);
      } else {
        var j :| 0 <= j < |init| && init[j] == Some(m[n]) &&
          (forall k :: j < k < |init| && init[k].Some? ==> init[k].value.name != n);
        assert rs[j] == Some(m'[n]);
        forall k | j < k < |rs| && rs[k].Some? ensures rs[k].value.name != n {
          if k < |init| { assert rs[k] == init[k]; }
        }
      }
    }
  }
}
