/** The in-memory cache: entries carry a deadline and are dropped when a read finds them past it.
    Times are nanoseconds of one monotonic clock. */
module Cache {
  import opened Options

  type Key = string

  const NANOS_PER_MILLI: nat := 1_000_000

  datatype Entry<V> = Entry(value: V, expiresAt: nat)

  predicate KeyCharacter(c: char) {
    'a' <= c <= 'z' || 'A' <= c <= 'Z' || '0' <= c <= '9' || c == ':' || c == '-' || c == '_'
  }

  predicate ValidKey(key: Key) {
    0 < |key| <= 128 && forall i :: 0 <= i < |key| ==> KeyCharacter(key[i])
  }

  /** At least one millisecond. */
  predicate ValidTtl(ttl: nat) {
    ttl / NANOS_PER_MILLI != 0
  }

  /** Of one key character repeated, the keys of 1 to 128 are valid; of any other, none is. */
  lemma ValidKeyLengths(c: char, n: nat)
    ensures ValidKey(seq(n, _ => c)) <==> KeyCharacter(c) && 1 <= n <= 128
  {
    if n > 0 {
      assert seq(n, _ => c)[0] == c;
    }
  }

  /** A lifetime is valid from one millisecond on. */
  lemma ValidTtlFrom(ttl: nat)
    ensures ValidTtl(ttl) <==> ttl >= 1_000_000
  {
  }

  datatype Call<V> =
    | GetJson(key: Key, now: nat)
    | PutJson(key: Key, value: V, ttl: nat, now: nat)
    | Invalidate(key: Key, now: nat)
    | TakeJson(key: Key, now: nat)

  datatype Reply<V> = Read(found: Option<V>) | Stored | Invalidated | BadKey | BadTtl

  // ---- The cache ----

  function CacheStep<V>(values: map<Key, Entry<V>>, call: Call<V>): (map<Key, Entry<V>>, Reply<V>) {
    if !ValidKey(call.key) then (values, BadKey)
    else
      match call
      case GetJson(key, now) =>
        if key !in values then (values, Read(None))
        else if values[key].expiresAt > now then (values, Read(Some(values[key].value)))
        else (values - {key}, Read(None))
      case PutJson(key, value, ttl, now) =>
        if !ValidTtl(ttl) then (values, BadTtl)
        else (values[key := Entry(value, now + ttl)], Stored)
      case Invalidate(key, _) => (values - {key}, Invalidated)
      case TakeJson(key, now) =>
        (values - {key},
         Read(if key in values && values[key].expiresAt > now then Some(values[key].value) else None))
  }

  class MemoryCache<V> {
    var values: map<Key, Entry<V>>

    constructor ()
      ensures values == map[]
    {
      values := map[];
    }

    method Get(key: Key, now: nat) returns (reply: Reply<V>)
      modifies this
      ensures (values, reply) == CacheStep(old(values), GetJson(key, now))
    {
      if !ValidKey(key) {
        return BadKey;
      }
      if key in values && values[key].expiresAt > now {
        return Read(Some(values[key].value));
      }
      if key in values {
        values := values - {key};
      }
      reply := Read(None);
    }

    method Put(key: Key, value: V, ttl: nat, now: nat) returns (reply: Reply<V>)
      modifies this
      ensures (values, reply) == CacheStep(old(values), PutJson(key, value, ttl, now))
    {
      if !ValidKey(key) {
        return BadKey;
      }
      if !ValidTtl(ttl) {
        return BadTtl;
      }
      values := values[key := Entry(value, now + ttl)];
      reply := Stored;
    }

    method Remove(key: Key, now: nat) returns (reply: Reply<V>)
      modifies this
      ensures (values, reply) == CacheStep(old(values), Invalidate(key, now))
    {
      if !ValidKey(key) {
        return BadKey;
      }
      values := values - {key};
      reply := Invalidated;
    }

    /** Reads and removes in one step. */
    method Take(key: Key, now: nat) returns (reply: Reply<V>)
      modifies this
      ensures (values, reply) == CacheStep(old(values), TakeJson(key, now))
    {
      if !ValidKey(key) {
        return BadKey;
      }
      var entry := if key in values then Some(values[key]) else None;
      values := values - {key};
      reply := Read(if entry.Some? && entry.value.expiresAt > now then Some(entry.value.value) else None);
    }
  }

  // ---- Runs ----

  type Calls<V> = seq<Call<V>>

  predicate Timed<V>(calls: Calls<V>) {
    forall i, k :: 0 <= i < k < |calls| ==> calls[i].now <= calls[k].now
  }

  function ValuesAfter<V>(calls: Calls<V>): map<Key, Entry<V>> {
    if calls == [] then map[]
    else CacheStep(ValuesAfter(calls[..|calls| - 1]), calls[|calls| - 1]).0
  }

  /** The reply to the last call. */
  function LastReply<V>(calls: Calls<V>): Reply<V>
    requires calls != []
  {
    CacheStep(ValuesAfter(calls[..|calls| - 1]), calls[|calls| - 1]).1
  }

  // ---- The reference: the last put, unless invalidated or taken since ----

  function LastPut<V>(calls: Calls<V>, key: Key): Option<Entry<V>> {
    if calls == [] then None
    else
      var before, call := calls[..|calls| - 1], calls[|calls| - 1];
      if call.key != key || !ValidKey(key) then LastPut(before, key)
      else
        match call
        case GetJson(_, _) => LastPut(before, key)
        case PutJson(_, value, ttl, now) =>
          if ValidTtl(ttl) then Some(Entry(value, now + ttl)) else LastPut(before, key)
        case Invalidate(_, _) => None
        case TakeJson(_, _) => None
  }

  function Unexpired<V>(entry: Option<Entry<V>>, now: nat): Option<V> {
    if entry.Some? && entry.value.expiresAt > now then Some(entry.value.value) else None
  }

  function ReferenceReply<V>(calls: Calls<V>): Reply<V>
    requires calls != []
  {
    var before, call := calls[..|calls| - 1], calls[|calls| - 1];
    if !ValidKey(call.key) then BadKey
    else
      match call
      case GetJson(key, now) => Read(Unexpired(LastPut(before, key), now))
      case TakeJson(key, now) => Read(Unexpired(LastPut(before, key), now))
      case PutJson(_, _, ttl, _) => if ValidTtl(ttl) then Stored else BadTtl
      case Invalidate(_, _) => Invalidated
  }

  function Find<V>(values: map<Key, Entry<V>>, key: Key): Option<Entry<V>> {
    if key in values then Some(values[key]) else None
  }

  /** The two agree on every key from `now` on, whatever of the expired entries was evicted. */
  ghost predicate Matches<V>(values: map<Key, Entry<V>>, calls: Calls<V>, now: nat) {
    forall k :: Find(values, k) == LastPut(calls, k)
      || (Find(values, k).None? && LastPut(calls, k).Some? && LastPut(calls, k).value.expiresAt <= now)
  }

  lemma {:induction false} RunMatches<V>(calls: Calls<V>)
    requires Timed(calls)
    ensures Matches(ValuesAfter(calls), calls, if calls == [] then 0 else calls[|calls| - 1].now)
    ensures calls != [] ==> LastReply(calls) == ReferenceReply(calls)
  {
    if calls != [] {
      var n := |calls| - 1;
      var before, call := calls[..n], calls[n];
      RunMatches(before);
      var values := ValuesAfter(before);
      assert Find(values, call.key) == LastPut(before, call.key)
        || (Find(values, call.key).None? && LastPut(before, call.key).value.expiresAt <= call.now);
      forall k
        ensures Find(ValuesAfter(calls), k) == LastPut(calls, k)
          || (Find(ValuesAfter(calls), k).None? && LastPut(calls, k).Some?
              && LastPut(calls, k).value.expiresAt <= call.now)
      {
        assert Find(values, k) == LastPut(before, k) || Find(values, k).None?;
      }
    }
  }

  /** Over every sequence of calls in time order, `get` and `take` return the last value put exactly when
      it is unexpired and was neither invalidated nor taken since: eviction on read is unobservable. */
  lemma CacheRefinesTimedMap<V>(calls: Calls<V>)
    requires calls != [] && Timed(calls)
    ensures LastReply(calls) == ReferenceReply(calls)
  {
    RunMatches(calls);
  }
}
