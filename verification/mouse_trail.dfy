/**
  The mouse-trail particle pool `mouseParticles`.

  The pool lists the live trail particles in the order they were created,
  oldest first. A particle is named by its creation number, so the ids of
  distinct particles differ and later particles have larger ids. Two events
  change the pool: a spawn (`createMouseParticle`), which first evicts the
  oldest particle when the pool holds more than ten, then appends the new one;
  and a particle's one-second timer, which filters that particle out of the
  pool. Timers may arrive in any order, and a timer for an evicted particle
  finds nothing to remove.
 */
module MouseTrail {
  import opened Wrappers

  /** `mouseParticles`: live particle ids, oldest first. */
  type Pool = seq<nat>

  /** A spawn evicts the oldest particle when the pool is longer than this. */
  const EvictAbove: nat := 10

  /** The largest pool a spawn can leave behind: the guard runs before the push,
      so a pool of exactly `EvictAbove` particles still grows by one. */
  const Cap: nat := EvictAbove + 1

  /** The pool after a spawn, and the particle evicted to make room, if any. */
  datatype Spawned = Spawned(pool: Pool, evicted: Option<nat>)

  /** `createMouseParticle`: evict the head when the pool is longer than ten,
      then append the new particle at the tail. */
  function Spawn(pool: Pool, id: nat): (r: Spawned)
    ensures r.evicted.Some? <==> |pool| > EvictAbove
    ensures r.evicted.Some? ==> r.evicted.value == pool[0]
    ensures |r.pool| > 0 && r.pool[|r.pool| - 1] == id
    ensures r.evicted.Some? ==> r.pool[..|r.pool| - 1] == pool[1..]
    ensures r.evicted.None? ==> r.pool[..|r.pool| - 1] == pool
    ensures |pool| <= Cap ==> |r.pool| <= Cap
  {
    if |pool| > EvictAbove then Spawned(pool[1..] + [id], Some(pool[0]))
    else Spawned(pool + [id], None)
  }

  /** A particle's removal timer, which keeps every pool entry that is not its
      own particle. Its particle is gone afterwards, and the pool never grows. */
  function Expire(pool: Pool, id: nat): (r: Pool)
    ensures id !in r
    ensures |r| <= |pool|
  {
    if pool == [] then []
    else if pool[0] == id then Expire(pool[1..], id)
    else [pool[0]] + Expire(pool[1..], id)
  }

  /** No particle appears twice. */
  predicate Distinct(pool: Pool) {
    forall i, j :: 0 <= i < j < |pool| ==> pool[i] != pool[j]
  }

  /** Ids strictly increase from head to tail: oldest first. */
  predicate Increasing(pool: Pool) {
    forall i, j :: 0 <= i < j < |pool| ==> pool[i] < pool[j]
  }

  /** A creation-ordered pool holds no particle twice. */
  lemma IncreasingDistinct(pool: Pool)
    requires Increasing(pool)
    ensures Distinct(pool)
  {
  }

  /** Every id in the pool is below `bound`. */
  predicate Below(pool: Pool, bound: nat) {
    forall x :: x in pool ==> x < bound
  }

  /** The filter keeps exactly the particles other than its own. */
  lemma {:induction false} ExpireMembers(pool: Pool, id: nat)
    ensures forall x :: x in Expire(pool, id) <==> x in pool && x != id
    decreases |pool|
  {
    if pool != [] {
      var h, t := pool[0], pool[1..];
      assert pool == [h] + t;
      ExpireMembers(t, id);
    }
  }

  /** A timer whose particle was already evicted leaves the pool unchanged. */
  lemma {:induction false} ExpireAbsent(pool: Pool, id: nat)
    requires id !in pool
    ensures Expire(pool, id) == pool
    decreases |pool|
  {
    if pool != [] {
      var h, t := pool[0], pool[1..];
      assert pool == [h] + t;
      ExpireAbsent(t, id);
    }
  }

  /** A timer removes exactly its own particle and keeps the rest in order. */
  lemma ExpireRemovesExactlyOne(pool: Pool, k: nat)
    requires Distinct(pool)
    requires k < |pool|
    ensures Expire(pool, pool[k]) == pool[..k] + pool[k + 1..]
  {
    var id, before, after := pool[k], pool[..k], pool[k + 1..];
    assert id !in before by {
      forall j | 0 <= j < k ensures before[j] != id { assert before[j] == pool[j]; }
    }
    assert id !in after by {
      forall j | 0 <= j < |after| ensures after[j] != id { assert after[j] == pool[k + 1 + j]; }
    }
    assert Expire(before + [id], id) == before by {
      ExpireAbsent(before, id);
      ExpireAppend(before, [id], id);
      ExpireCons(id, [], id);
      assert [id] + [] == [id];
    }
    calc {
      Expire(pool, id);
      { assert pool == (before + [id]) + after; }
      Expire((before + [id]) + after, id);
      { ExpireAppend(before + [id], after, id); }
      Expire(before + [id], id) + Expire(after, id);
      { ExpireAbsent(after, id); }
      before + after;
    }
  }

  /** Timers may fire in either order: the pool ends up the same. A timer that
      fires twice changes nothing the second time. */
  lemma {:induction false} ExpireCommutes(pool: Pool, a: nat, b: nat)
    ensures Expire(Expire(pool, a), b) == Expire(Expire(pool, b), a)
    ensures Expire(Expire(pool, a), a) == Expire(pool, a)
    decreases |pool|
  {
    if pool != [] {
      ExpireCommutes(pool[1..], a, b);
      var h, t := pool[0], pool[1..];
      if h != a {
        assert Expire(pool, a) == [h] + Expire(t, a);
        ExpireCons(h, Expire(t, a), b);
        ExpireCons(h, Expire(t, a), a);
      }
      if h != b {
        assert Expire(pool, b) == [h] + Expire(t, b);
        ExpireCons(h, Expire(t, b), a);
      }
    }
  }

  /** Filtering a list with a known head. */
  lemma ExpireCons(h: nat, t: Pool, id: nat)
    ensures Expire([h] + t, id) == if h == id then Expire(t, id) else [h] + Expire(t, id)
  {
    assert ([h] + t)[0] == h;
    assert ([h] + t)[1..] == t;
  }

  /** Filtering distributes over concatenation. */
  lemma {:induction false} ExpireAppend(p: Pool, q: Pool, id: nat)
    ensures Expire(p + q, id) == Expire(p, id) + Expire(q, id)
    decreases |p|
  {
    if p == [] {
      assert p + q == q;
    } else {
      var h, t := p[0], p[1..];
      assert (p + q)[0] == h && (p + q)[1..] == t + q;
      ExpireAppend(t, q, id);
      var et, eq := Expire(t, id), Expire(q, id);
      if h != id {
        calc {
          Expire(p + q, id);
          [h] + Expire(t + q, id);
          [h] + (et + eq);
          ([h] + et) + eq;
          Expire(p, id) + eq;
        }
      }
    }
  }

  /** Filtering keeps the creation order. */
  lemma {:induction false} ExpireKeepsOrder(pool: Pool, id: nat)
    requires Increasing(pool)
    ensures Increasing(Expire(pool, id))
    decreases |pool|
  {
    if pool != [] {
      var h, t := pool[0], pool[1..];
      ExpireKeepsOrder(t, id);
      if h != id {
        var rest := Expire(t, id);
        var r := [h] + rest;
        assert Expire(pool, id) == r;
        forall i, j | 0 <= i < j < |r|
          ensures r[i] < r[j]
        {
          ExpireMembers(t, id);
          assert r[j] == rest[j - 1] && rest[j - 1] in t;
          var k :| 0 <= k < |t| && t[k] == r[j];
          assert pool[k + 1] == r[j];
          if i > 0 {
            assert r[i] == rest[i - 1];
          }
        }
      }
    }
  }

  /** Eviction is first in, first out: when the pool keeps its creation order, the
      particle a spawn evicts is the oldest live one, and the newest particle is
      appended after all the others. */
  lemma SpawnEvictsOldest(pool: Pool, id: nat)
    requires Increasing(pool)
    requires Below(pool, id)
    requires |pool| > EvictAbove
    ensures Spawn(pool, id).evicted == Some(pool[0])
    ensures forall x :: x in Spawn(pool, id).pool ==> pool[0] < x
    ensures Increasing(Spawn(pool, id).pool)
  {
    var r := Spawn(pool, id).pool;
    assert r == pool[1..] + [id];
    assert pool[0] in pool;
    forall x | x in r
      ensures pool[0] < x
    {
      if x != id {
        var k :| 0 <= k < |r| - 1 && r[k] == x;
        assert pool[k + 1] == x;
      }
    }
    forall i, j | 0 <= i < j < |r|
      ensures r[i] < r[j]
    {
      assert r[i] == pool[i + 1];
      if j == |r| - 1 {
        assert pool[i + 1] in pool;
      } else {
        assert r[j] == pool[j + 1];
      }
    }
  }

  /** A spawn of a fresh, newer particle keeps the pool in creation order. */
  lemma SpawnKeepsOrder(pool: Pool, id: nat)
    requires Increasing(pool)
    requires Below(pool, id)
    ensures Increasing(Spawn(pool, id).pool)
    ensures Below(Spawn(pool, id).pool, id + 1)
  {
    if |pool| > EvictAbove {
      SpawnEvictsOldest(pool, id);
    } else {
      var r := Spawn(pool, id).pool;
      assert r == pool + [id];
      forall i, j | 0 <= i < j < |r|
        ensures r[i] < r[j]
      {
        if j == |r| - 1 {
          assert r[i] in pool;
        }
      }
    }
  }

  /** The timer of a particle that was just spawned undoes the spawn, except for
      the eviction it caused. */
  lemma SpawnThenExpire(pool: Pool, id: nat)
    requires id !in pool
    ensures Expire(Spawn(pool, id).pool, id) == if |pool| > EvictAbove then pool[1..] else pool
  {
    var kept := if |pool| > EvictAbove then pool[1..] else pool;
    assert Spawn(pool, id).pool == kept + [id];
    assert id !in kept;
    ExpireAbsent(kept, id);
    ExpireAppend(kept, [id], id);
    assert Expire([id], id) == [] by {
      assert [id][1..] == [];
    }
  }

  /** An event the pool reacts to: a spawn, or a particle's removal timer firing. */
  datatype Event = SpawnAt(id: nat) | TimerFired(id: nat)

  /** One event. */
  function Handle(pool: Pool, e: Event): (r: Pool)
    ensures |r| <= |pool| + 1
    ensures e.TimerFired? ==> e.id !in r
    ensures e.SpawnAt? ==> |r| > 0 && r[|r| - 1] == e.id
  {
    match e
    case SpawnAt(id) => Spawn(pool, id).pool
    case TimerFired(id) => Expire(pool, id)
  }

  /** The events in the order they arrive. */
  function Run(pool: Pool, evs: seq<Event>): (r: Pool)
    ensures |r| <= |pool| + |evs|
    decreases |evs|
  {
    if evs == [] then pool else Run(Handle(pool, evs[0]), evs[1..])
  }

  /** Spawn ids are at least `next` and strictly increase along the events, as
      creation numbers of fresh particles do. */
  predicate FreshSpawns(next: nat, evs: seq<Event>)
    decreases |evs|
  {
    evs == [] ||
    match evs[0]
    case SpawnAt(id) => next <= id && FreshSpawns(id + 1, evs[1..])
    case TimerFired(_) => FreshSpawns(next, evs[1..])
  }

  /** However spawns and timers interleave, a pool that starts within the cap
      never holds more than eleven particles. */
  lemma {:induction false} RunKeepsCap(pool: Pool, evs: seq<Event>)
    requires |pool| <= Cap
    ensures |Run(pool, evs)| <= Cap
    decreases |evs|
  {
    if evs != [] {
      RunKeepsCap(Handle(pool, evs[0]), evs[1..]);
    }
  }

  /** Spawns of the given particles, in order, with no timer firing in between. */
  function Spawns(ids: seq<nat>): (evs: seq<Event>)
    ensures |evs| == |ids|
  {
    if ids == [] then [] else [SpawnAt(ids[0])] + Spawns(ids[1..])
  }

  /** The cap is reached: while the pool stays within eleven particles, spawns
      evict nothing, so eleven spawns in a row from an empty pool leave eleven
      live particles. */
  lemma {:induction false} SpawnsFillUpToCap(pool: Pool, ids: seq<nat>)
    requires |pool| + |ids| <= Cap
    ensures Run(pool, Spawns(ids)) == pool + ids
    decreases |ids|
  {
    if ids == [] {
      assert pool + ids == pool;
    } else {
      var evs := Spawns(ids);
      assert evs[0] == SpawnAt(ids[0]) && evs[1..] == Spawns(ids[1..]);
      assert Handle(pool, evs[0]) == pool + [ids[0]];
      SpawnsFillUpToCap(pool + [ids[0]], ids[1..]);
      assert pool + [ids[0]] + ids[1..] == pool + ids;
    }
  }

  /** However spawns and timers interleave, the pool stays in creation order, so
      its head is always the oldest live particle and eviction is first in,
      first out. */
  lemma {:induction false} RunKeepsOrder(pool: Pool, next: nat, evs: seq<Event>)
    requires Increasing(pool)
    requires Below(pool, next)
    requires FreshSpawns(next, evs)
    ensures Increasing(Run(pool, evs))
    ensures Distinct(Run(pool, evs))
    decreases |evs|
  {
    if evs == [] {
      IncreasingDistinct(pool);
    } else {
      match evs[0]
      case SpawnAt(id) =>
        assert Below(pool, id);
        SpawnKeepsOrder(pool, id);
        RunKeepsOrder(Spawn(pool, id).pool, id + 1, evs[1..]);
      case TimerFired(id) =>
        ExpireKeepsOrder(pool, id);
        ExpireMembers(pool, id);
        RunKeepsOrder(Expire(pool, id), next, evs[1..]);
    }
  }

  /** A particle is live after the events only if it was live before and its
      timer never fired, or it was spawned and its timer has not fired since. */
  lemma {:induction false} LiveMeansUnexpired(pool: Pool, evs: seq<Event>, x: nat)
    requires x in Run(pool, evs)
    ensures || (x in pool && TimerFired(x) !in evs)
            || (exists i :: 0 <= i < |evs| && evs[i] == SpawnAt(x) && TimerFired(x) !in evs[i + 1..])
    decreases |evs|
  {
    if evs != [] {
      var e, rest := evs[0], evs[1..];
      assert evs == [e] + rest;
      var next := Handle(pool, e);
      LiveMeansUnexpired(next, rest, x);
      if x in next && TimerFired(x) !in rest {
        if e == SpawnAt(x) {
          assert evs[0] == SpawnAt(x) && evs[0 + 1..] == rest;
        } else {
          match e
          case SpawnAt(id) =>
            var r := Spawn(pool, id).pool;
            assert x in r[..|r| - 1] by {
              var k :| 0 <= k < |r| && r[k] == x;
              assert k < |r| - 1;
              assert r[..|r| - 1][k] == x;
            }
          case TimerFired(id) =>
            ExpireMembers(pool, id);
        }
      } else {
        var i :| 0 <= i < |rest| && rest[i] == SpawnAt(x) && TimerFired(x) !in rest[i + 1..];
        assert evs[i + 1] == SpawnAt(x) && evs[i + 2..] == rest[i + 1..];
      }
    }
  }

  /** No leaks: when every particle's timer eventually fires (those live at the
      start, and each spawned one after its spawn), the pool ends up empty,
      whatever order the timers fire in and whatever evictions happened. */
  lemma NoLeak(pool: Pool, evs: seq<Event>)
    requires forall x :: x in pool ==> TimerFired(x) in evs
    requires forall i :: 0 <= i < |evs| && evs[i].SpawnAt? ==> TimerFired(evs[i].id) in evs[i + 1..]
    ensures Run(pool, evs) == []
  {
    if Run(pool, evs) != [] {
      LiveMeansUnexpired(pool, evs, Run(pool, evs)[0]);
    }
  }
}
