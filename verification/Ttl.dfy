/**
 * TtlMap (src/collections/ttl.rs): entries live for a time after they were last touched. The clock
 * is in nanoseconds; expirations are whole seconds, rounded down.
 */
module Ttl {
  import opened Base

  const SECOND: nat := 1_000_000_000

  /** Duration::as_secs of a time since the epoch. */
  function Secs(t: nat): nat {
    t / SECOND
  }

  datatype Value<V> = Value(value: V, expiresAt: nat)

  /** Whether a prune at `now` spares an entry touched at `touched`. */
  predicate Spared(touched: nat, ttl: nat, now: nat) {
    Secs(touched + ttl) > Secs(now)
  }

  /**
   * Truncation to seconds may cost an entry up to one second of its life, and never adds any:
   * touched less than ttl minus a second ago it is spared, untouched for ttl it is not.
   */
  lemma LifetimeBounds(touched: nat, ttl: nat, now: nat)
    ensures now + SECOND < touched + ttl ==> Spared(touched, ttl, now)
    ensures now >= touched + ttl ==> !Spared(touched, ttl, now)
  {}

  /** The second is really lost: an entry can go a nanosecond more than ttl - 1 s after its last touch. */
  lemma SecondMayBeLost(touched: nat)
    requires touched % SECOND == SECOND - 1
    ensures var ttl, now := 60 * SECOND, touched + 59 * SECOND + 1; !Spared(touched, ttl, now)
  {}

  class TtlMap<K(==), V> {
    const ttl: nat
    var inner: map<K, Value<V>>

    /** When each entry was last inserted or read. */
    ghost var touched: map<K, nat>

    ghost predicate Valid()
      reads this
    {
      && touched.Keys == inner.Keys
      && forall k :: k in inner ==> inner[k].expiresAt == Secs(touched[k] + ttl)
    }

    constructor (ttl: nat)
      ensures Valid() && inner == map[] && this.ttl == ttl && touched == map[]
    {
      this.ttl, inner, touched := ttl, map[], map[];
    }

    /** Reads an entry, which renews it. */
    method Lookup(k: K, now: nat) returns (r: Option<V>)
      requires Valid()
      modifies this
      ensures Valid()
      ensures r == if k in old(inner) then Some(old(inner)[k].value) else None
      ensures k !in old(inner) ==> inner == old(inner) && touched == old(touched)
      ensures k in old(inner) ==>
                inner == old(inner)[k := Value(r.value, Secs(now + ttl))] && touched == old(touched)[k := now]
    {
      if k !in inner {
        return None;
      }
      r := Some(inner[k].value);
      inner := inner[k := inner[k].(expiresAt := Secs(now + ttl))];
      touched := touched[k := now];
    }

    method Insert(k: K, v: V, now: nat) returns (previous: Option<V>)
      requires Valid()
      modifies this
      ensures Valid()
      ensures previous == if k in old(inner) then Some(old(inner)[k].value) else None
      ensures inner == old(inner)[k := Value(v, Secs(now + ttl))] && touched == old(touched)[k := now]
    {
      previous := if k in inner then Some(inner[k].value) else None;
      inner := inner[k := Value(v, Secs(now + ttl))];
      touched := touched[k := now];
    }

    /** Changes a value through a reference obtained by a read; the expiration stays. */
    method Assign(k: K, v: V)
      requires Valid() && k in inner
      modifies this`inner
      ensures Valid() && inner == old(inner)[k := old(inner)[k].(value := v)]
    {
      inner := inner[k := inner[k].(value := v)];
    }

    method Remove(k: K) returns (found: bool)
      requires Valid()
      modifies this
      ensures Valid() && found == (k in old(inner))
      ensures inner == old(inner) - {k} && touched == old(touched) - {k}
    {
      found := k in inner;
      inner, touched := inner - {k}, touched - {k};
    }

    /**
     * prune_entries: looks for an expired entry under a read lock, and only then filters under a
     * write lock; the effect is that of always filtering.
     */
    method Prune(now: nat)
      requires Valid()
      modifies this
      ensures Valid()
      ensures inner == map k | k in old(inner) && old(inner)[k].expiresAt > Secs(now) :: old(inner)[k]
      ensures touched == map k | k in inner :: old(touched)[k]
      ensures forall k :: k in old(touched) ==> (k in touched <==> Spared(old(touched)[k], ttl, now))
      ensures forall k :: k in old(touched) && now + SECOND < old(touched)[k] + ttl ==> k in inner
      ensures forall k :: k in old(touched) && now >= old(touched)[k] + ttl ==> k !in inner
    {
      var todo, hasExpired := inner.Keys, false;
      while todo != {} && !hasExpired
        invariant todo <= inner.Keys
        invariant !hasExpired ==> forall k :: k in inner && k !in todo ==> inner[k].expiresAt > Secs(now)
      {
        var k :| k in todo;
        hasExpired := inner[k].expiresAt <= Secs(now);
        todo := todo - {k};
      }
      forall k | k in touched
        ensures now + SECOND < touched[k] + ttl ==> Spared(touched[k], ttl, now)
        ensures now >= touched[k] + ttl ==> !Spared(touched[k], ttl, now) {
        LifetimeBounds(touched[k], ttl, now);
      }
      if hasExpired {
        inner := map k | k in inner && inner[k].expiresAt > Secs(now) :: inner[k];
        touched := map k | k in inner :: touched[k];
      }
    }
  }
}
