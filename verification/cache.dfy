/**
 * The expiring key-value cache of src/cache.ts: an in-memory map of entries,
 * mirrored into the host's persistent store under one namespace on every
 * mutation. Expiry is lazy: an entry is checked against the current time,
 * in unix seconds, when it is read. The clock is a parameter.
 */
module ExpiringCache {
  import opened Wrappers
  import opened Json

  /** One stored item and, optionally, the instant from which it counts as expired. */
  datatype Entry = Entry(value: Value, expiration: Option<int>)

  /** What a mutating call's promise settles with: a literal boolean, or the store's acknowledgement. */
  datatype Reply = Resolved(b: bool) | StoreUpdate

  /** `Number.isInteger` on a finite number. */
  predicate IsInteger(x: real) {
    x.Floor as real == x
  }

  /** The expiration `put` records for a time-to-live argument at time `now`. */
  function ExpirationFor(ttl: Option<real>, now: int): (e: Option<int>)
    ensures e.Some? <==> ttl.Some? && IsInteger(ttl.value)
    ensures e.Some? ==> e.value as real == now as real + ttl.value
  {
    if ttl.Some? && IsInteger(ttl.value) then Some(now + ttl.value.Floor) else None
  }

  /** An entry is live until its expiration instant, and forever if it has none. */
  predicate Live(e: Entry, now: int) {
    e.expiration.None? || now < e.expiration.value
  }

  /** Expiry is permanent: an entry expired at one time stays expired at every later time. */
  lemma ExpiredStaysExpired(e: Entry, now: int, later: int)
    requires now <= later
    ensures !Live(e, now) ==> !Live(e, later)
  {
  }

  /** An entry stored at `stored` with an integer time-to-live `ttl` is live exactly before `stored + ttl`. */
  lemma LiveUntilTtl(value: Value, ttl: Option<real>, stored: int, now: int)
    ensures ttl.None? ==> Live(Entry(value, ExpirationFor(ttl, stored)), now)
    ensures ttl.Some? && IsInteger(ttl.value) ==>
      (Live(Entry(value, ExpirationFor(ttl, stored)), now) <==> (now as real) < stored as real + ttl.value)
  {
  }

  class Cache {
    const namespace: string
    var cache: map<string, Entry>
    /** What the persistent store holds under `namespace`; None is `undefined`. */
    ghost var persisted: Option<map<string, Entry>>

    /** The in-memory map mirrors the store; a namespace never written, or flushed, reads as empty. */
    ghost predicate Valid()
      reads this
    {
      persisted == Some(cache) || (persisted == None && cache == map[])
    }

    /** Loads the namespace from the store, `{}` when it holds nothing. */
    constructor (namespace: string, stored: Option<map<string, Entry>>)
      ensures Valid()
      ensures this.namespace == namespace && persisted == stored
      ensures cache == if stored.Some? then stored.value else map[]
    {
      this.namespace := namespace;
      cache := if stored.Some? then stored.value else map[];
      persisted := stored;
    }

    method Put(key: Value, value: Value, ttl: Option<real>, now: int) returns (r: Reply)
      requires Valid()
      modifies this
      ensures Valid()
      ensures r == Resolved(false) <==> !key.Str? || value.Undefined?
      ensures r == Resolved(false) ==> cache == old(cache) && persisted == old(persisted)
      ensures r != Resolved(false) ==>
        && r == StoreUpdate
        && cache == old(cache)[key.s := Entry(value, ExpirationFor(ttl, now))]
        && persisted == Some(cache)
      ensures r == StoreUpdate && ttl.None? ==>
        forall t :: Has(key.s, t) && Get(key.s, Undefined, t) == value
      ensures forall k :: (!key.Str? || k != key.s) ==> (k in cache <==> k in old(cache))
      ensures forall k :: (!key.Str? || k != key.s) && k in cache ==> cache[k] == old(cache)[k]
    {
      if !key.Str? || value.Undefined? {
        return Resolved(false);
      }
      var entry := Entry(value, None);
      if ttl.Some? && IsInteger(ttl.value) {
        entry := entry.(expiration := Some(now + ttl.value.Floor));
      }
      cache := cache[key.s := entry];
      persisted := Some(cache);
      r := StoreUpdate;
    }

    /** Present and not expired. */
    predicate Has(key: string, now: int)
      reads this
      ensures Has(key, now) <==> key in cache && Live(cache[key], now)
    {
      if key !in cache then false else !IsExpired(key, now)
    }

    /** The stored value while it is live; `default` when the key is absent, but undefined when it has expired. */
    function Get(key: string, default: Value, now: int): (v: Value)
      reads this
      ensures key !in cache ==> v == default
      ensures key in cache && !Live(cache[key], now) ==> v == Undefined
      ensures Has(key, now) ==> v == cache[key].value
    {
      if key !in cache then
        if !default.Undefined? then default else Undefined
      else if IsExpired(key, now) then Undefined
      else cache[key].value
    }

    method Forget(key: string) returns (r: Reply)
      requires Valid()
      modifies this
      ensures Valid()
      ensures key !in old(cache) ==> r == Resolved(true) && cache == old(cache) && persisted == old(persisted)
      ensures key in old(cache) ==> r == StoreUpdate && cache == old(cache) - {key} && persisted == Some(cache)
      ensures Keys() == old(Keys()) - {key} && forall t :: !Has(key, t)
    {
      if key !in cache {
        return Resolved(true);
      }
      cache := cache - {key};
      persisted := Some(cache);
      r := StoreUpdate;
    }

    /** `Object.keys`: every stored key, expired or not. */
    function Keys(): (ks: set<string>)
      reads this
      ensures forall k :: k in ks <==> k in cache
    {
      cache.Keys
    }

    /** Every stored key mapped to its unwrapped value, expired or not. */
    method All() returns (items: map<string, Value>)
      ensures items.Keys == cache.Keys
      ensures forall k :: k in items ==> items[k] == cache[k].value
    {
      items := map[];
      var pending := cache.Keys;
      while pending != {}
        invariant pending <= cache.Keys
        invariant items.Keys == cache.Keys - pending
        invariant forall k :: k in items ==> items[k] == cache[k].value
        decreases pending
      {
        var k :| k in pending;
        items := items[k := cache[k].value];
        pending := pending - {k};
      }
    }

    method GetAll() returns (items: map<string, Value>)
      ensures items.Keys == cache.Keys
      ensures forall k :: k in items ==> items[k] == cache[k].value
    {
      items := All();
    }

    method Flush() returns (r: Reply)
      requires Valid()
      modifies this
      ensures Valid()
      ensures r == StoreUpdate && cache == map[] && persisted == None
    {
      cache := map[];
      persisted := None;
      r := StoreUpdate;
    }

    method ClearAll() returns (r: Reply)
      requires Valid()
      modifies this
      ensures Valid()
      ensures r == StoreUpdate && cache == map[] && persisted == None
    {
      r := Flush();
    }

    /** The stored expiration instant, if the key is present and has one. */
    function GetExpiration(key: string): (e: Option<int>)
      reads this
      ensures e.Some? ==> key in cache && cache[key].expiration == e
      ensures e.None? ==> key !in cache || cache[key].expiration.None?
    {
      if key !in cache || cache[key].expiration.None? then None
      else cache[key].expiration
    }

    /** True only of a present entry whose expiration has come; an absent key is not expired. */
    predicate IsExpired(key: string, now: int)
      reads this
      ensures IsExpired(key, now) <==> key in cache && !Live(cache[key], now)
      ensures IsExpired(key, now) <==> GetExpiration(key).Some? && now >= GetExpiration(key).value
    {
      if key !in cache || cache[key].expiration.None? then false
      else now >= cache[key].expiration.value
    }
  }

  /** `forget` is idempotent: a second call finds nothing, changes nothing and resolves `true`. */
  method ForgetTwice(c: Cache, key: string) returns (first: Reply, second: Reply)
    requires c.Valid()
    modifies c
    ensures c.Valid() && c.cache == old(c.cache) - {key}
    ensures second == Resolved(true)
    ensures c.persisted == if key in old(c.cache) then Some(c.cache) else old(c.persisted)
  {
    first := c.Forget(key);
    second := c.Forget(key);
  }
}
