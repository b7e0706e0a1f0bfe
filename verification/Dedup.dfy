/**
 Reservation of alert fingerprints, in the shared store or, when that does not answer, in a cooldown map in memory that
 is pruned as it goes (alert_dedup.go, keydb/keydb.go).
 */
module Dedup {

  const SECOND := 1_000_000_000
  const DEFAULT_TTL := 15 * 60 * SECOND

  type Cooldowns = map<string, int>

  predicate Cooling(m: Cooldowns, fingerprint: string, now: int) {
    fingerprint in m && now < m[fingerprint]
  }

  function Pruned(m: Cooldowns, now: int): Cooldowns {
    map k | k in m && now < m[k] :: m[k]
  }

  /** The reservation on the in-memory map: refuse while cooling, else reserve and drop what has expired. */
  function Reserve(m: Cooldowns, fingerprint: string, ttl: int, now: int): Cooldowns {
    if Cooling(m, fingerprint, now) then m else Pruned(m[fingerprint := now + ttl], now)
  }

  function EffectiveTtl(seconds: int, default: int): int {
    if seconds * SECOND <= 0 then default else seconds * SECOND
  }

  /** The reservation in the store, where keys expire by themselves. */
  function Claim(m: Cooldowns, fingerprint: string, ttl: int, now: int): Cooldowns {
    if Cooling(m, fingerprint, now) then m else m[fingerprint := now + ttl]
  }

  /** The reservation keys of the shared store; a key whose time is past is as good as gone. */
  class DedupStore {
    var entries: Cooldowns

    constructor ()
      ensures entries == map[]
    {
      entries := map[];
    }

    method ReserveDedup(fingerprint: string, ttl: int, now: int) returns (reserved: bool)
      modifies this
      ensures reserved == !Cooling(old(entries), fingerprint, now)
      ensures entries == Claim(old(entries), fingerprint, ttl, now)
    {
      if fingerprint in entries && now < entries[fingerprint] {
        return false;
      }
      entries := entries[fingerprint := now + ttl];
      return true;
    }

    method ForgetDedup(fingerprint: string)
      modifies this
      ensures entries == old(entries) - {fingerprint}
    {
      entries := entries - {fingerprint};
    }
  }

  class AlertDeduper {
    var expires: Cooldowns
    const defaultTtl: int
    const store: DedupStore

    constructor (defaultTtlSeconds: int, store: DedupStore)
      ensures expires == map[] && this.store == store
      ensures defaultTtl == if defaultTtlSeconds <= 0 then 900_000_000_000 else defaultTtlSeconds * 1_000_000_000
    {
      expires := map[];
      this.store := store;
      defaultTtl := if defaultTtlSeconds * SECOND <= 0 then DEFAULT_TTL else defaultTtlSeconds * SECOND;
    }

    /** The loop that deletes what has expired. */
    method Prune(now: int)
      modifies this`expires
      ensures expires == Pruned(old(expires), now)
    {
      ghost var all := expires;
      var keys := expires.Keys;
      while keys != {}
        invariant keys <= all.Keys
        invariant expires == map k | k in all && (k in keys || now < all[k]) :: all[k]
        decreases |keys|
      {
        var key :| key in keys;
        if !(now < expires[key]) {
          expires := expires - {key};
        }
        keys := keys - {key};
      }
    }

    /** `storeUp`: there is a store and it answers. */
    method Allow(fingerprint: string, decisionTtlSeconds: int, now: int, storeUp: bool) returns (ok: bool)
      modifies this`expires, store
      ensures var ttl := if decisionTtlSeconds <= 0 then defaultTtl else decisionTtlSeconds * 1_000_000_000;
              if storeUp then
                && ok == !Cooling(old(store.entries), fingerprint, now)
                && store.entries == Claim(old(store.entries), fingerprint, ttl, now)
                && expires == old(expires)
              else
                && ok == !Cooling(old(expires), fingerprint, now)
                && expires == Reserve(old(expires), fingerprint, ttl, now)
                && store.entries == old(store.entries)
    {
      var ttl := decisionTtlSeconds * SECOND;
      if ttl <= 0 {
        ttl := defaultTtl;
      }
      if storeUp {
        ok := store.ReserveDedup(fingerprint, ttl, now);
        return;
      }
      if fingerprint in expires && now < expires[fingerprint] {
        return false;
      }
      expires := expires[fingerprint := now + ttl];
      Prune(now);
      return true;
    }

    method Forget(fingerprint: string, storeUp: bool)
      modifies this`expires, store
      ensures expires == old(expires) - {fingerprint}
      ensures store.entries == if storeUp then old(store.entries) - {fingerprint} else old(store.entries)
    {
      if storeUp {
        store.ForgetDedup(fingerprint);
      }
      expires := expires - {fingerprint};
    }
  }

  // ----- histories of one in-memory map

  datatype Call = Allow(fingerprint: string, ttl: int, at: int) | Forget(fingerprint: string, at: int)

  ghost predicate InOrder(calls: seq<Call>) {
    && (forall i, j :: 0 <= i < j < |calls| ==> calls[i].at <= calls[j].at)
    && forall i :: 0 <= i < |calls| && calls[i].Allow? ==> calls[i].ttl > 0
  }

  ghost function After(calls: seq<Call>): Cooldowns {
    if calls == [] then map[]
    else
      var before := After(calls[..|calls| - 1]);
      match calls[|calls| - 1]
      case Allow(f, ttl, at) => Reserve(before, f, ttl, at)
      case Forget(f, _) => before - {f}
  }

  /** The reference: nothing is ever pruned. */
  ghost function AfterUnpruned(calls: seq<Call>): Cooldowns {
    if calls == [] then map[]
    else
      var before := AfterUnpruned(calls[..|calls| - 1]);
      match calls[|calls| - 1]
      case Allow(f, ttl, at) => Claim(before, f, ttl, at)
      case Forget(f, _) => before - {f}
  }

  /** Whether call number `i` was an allowed reservation. */
  ghost predicate Allowed(calls: seq<Call>, i: nat)
    requires i < |calls|
  {
    calls[i].Allow? && !Cooling(After(calls[..i]), calls[i].fingerprint, calls[i].at)
  }

  /** Two maps hold the same reservations that have not expired. */
  ghost predicate SameLive(m: Cooldowns, u: Cooldowns, now: int) {
    forall k :: Cooling(m, k, now) == Cooling(u, k, now) && (Cooling(m, k, now) ==> m[k] == u[k])
  }

  lemma {:induction false} PruningKeepsLive(calls: seq<Call>, now: int)
    requires InOrder(calls) && (calls != [] ==> calls[|calls| - 1].at <= now)
    ensures SameLive(After(calls), AfterUnpruned(calls), now)
  {
    if calls == [] {
    } else {
      var before, c := calls[..|calls| - 1], calls[|calls| - 1];
      PruningKeepsLive(before, c.at);
      var m, u := After(before), AfterUnpruned(before);
      assert Cooling(m, c.fingerprint, c.at) == Cooling(u, c.fingerprint, c.at);
      forall k ensures Cooling(After(calls), k, now) == Cooling(AfterUnpruned(calls), k, now)
                       && (Cooling(After(calls), k, now) ==> After(calls)[k] == AfterUnpruned(calls)[k])
      {
        assert Cooling(m, k, c.at) == Cooling(u, k, c.at);
      }
    }
  }

  /** With a clock that does not run backwards, pruning never changes a verdict. */
  lemma PruningNeverChangesAVerdict(calls: seq<Call>, i: nat)
    requires InOrder(calls) && i < |calls|
    ensures Allowed(calls, i) <==>
            calls[i].Allow? && !Cooling(AfterUnpruned(calls[..i]), calls[i].fingerprint, calls[i].at)
  {
    PruningKeepsLive(calls[..i], calls[i].at);
    var f, now := calls[i].fingerprint, calls[i].at;
    assert Cooling(After(calls[..i]), f, now) == Cooling(AfterUnpruned(calls[..i]), f, now);
  }

  /** After an allowed call the map holds exactly the reservations that have not expired, the new one among them. */
  lemma AllowedCallLeavesLiveEntries(calls: seq<Call>, i: nat)
    requires InOrder(calls) && i < |calls| && Allowed(calls, i)
    ensures var m, now := After(calls[..i + 1]), calls[i].at;
            && (forall k :: k in m ==> now < m[k])
            && calls[i].fingerprint in m && m[calls[i].fingerprint] == now + calls[i].ttl
            && m == Pruned(AfterUnpruned(calls[..i + 1]), now)
  {
    var now := calls[i].at;
    PruningKeepsLive(calls[..i + 1], now);
    assert calls[..i + 1][..i] == calls[..i];
    var m, u := After(calls[..i + 1]), AfterUnpruned(calls[..i + 1]);
    assert forall k :: k in m <==> Cooling(m, k, now);
    assert forall k :: k in Pruned(u, now) <==> Cooling(u, k, now);
    assert forall k :: Cooling(m, k, now) == Cooling(u, k, now);
  }

  lemma {:induction false} ReservationHolds(calls: seq<Call>, i: nat, j: nat)
    requires InOrder(calls) && i < j <= |calls| && Allowed(calls, i)
    requires forall k :: i < k < j ==> calls[k] != Forget(calls[i].fingerprint, calls[k].at)
    ensures var u := AfterUnpruned(calls[..j]);
            calls[i].fingerprint in u && u[calls[i].fingerprint] >= calls[i].at + calls[i].ttl
  {
    assert calls[..j][..j - 1] == calls[..j - 1];
    if j == i + 1 {
      PruningNeverChangesAVerdict(calls, i);
    } else {
      ReservationHolds(calls, i, j - 1);
      assert calls[i].at <= calls[j - 1].at;
    }
  }

  /** Two allowed calls for one fingerprint with no Forget between are at least the first one's TTL apart. */
  lemma AllowedCallsAreSpaced(calls: seq<Call>, i: nat, j: nat)
    requires InOrder(calls) && i < j < |calls| && Allowed(calls, i) && Allowed(calls, j)
    requires calls[i].fingerprint == calls[j].fingerprint
    requires forall k :: i < k < j ==> calls[k] != Forget(calls[i].fingerprint, calls[k].at)
    ensures calls[j].at >= calls[i].at + calls[i].ttl
  {
    ReservationHolds(calls, i, j);
    PruningNeverChangesAVerdict(calls, j);
  }
}
