/**
 * The mouse-trailing smoke effect (`SmokeEffect`): a FIFO list of live
 * particles capped at 80 entries, fed by pointer movement and drained by
 * eviction, by each particle's own removal timer and by a periodic age
 * sweep. A particle's DOM element is represented by a unique id; the
 * particle container's children are the set `attached` of such ids.
 */
module Particles {
  import opened Wrappers
  import opened Seqs

  /** Upper bound on the number of live particles (`maxParticles`). */
  const MaxParticles: nat := 80
  /** A particle older than this many milliseconds is swept. */
  const MaxAge: int := 2000
  /** The pointer must move strictly farther than this to spawn a particle. */
  const MinDistance: int := 5

  datatype Point = Point(x: int, y: int)

  /** One entry of the `particles` list: the element's identity and its spawn time. */
  datatype Particle = Particle(id: nat, timestamp: int)

  /**
   * The removal callback a spawn schedules: remove `particle` after `delay`
   * ms, the animation duration (1000 ms up to, but not including, 1800 ms).
   */
  datatype Timeout = Timeout(particle: nat, delay: nat)

  /** The movement test of the mousemove handler, on squared integer distance. */
  predicate ShouldSpawn(last: Point, cur: Point)
  {
    var dx := cur.x - last.x;
    var dy := cur.y - last.y;
    dx * dx + dy * dy > MinDistance * MinDistance
  }

  /** Comparing squares agrees with comparing the Euclidean distance itself. */
  lemma DistanceThreshold(last: Point, cur: Point, dist: real)
    requires dist >= 0.0
    requires dist * dist == ((cur.x - last.x) * (cur.x - last.x) + (cur.y - last.y) * (cur.y - last.y)) as real
    ensures dist > MinDistance as real <==> ShouldSpawn(last, cur)
  {
    if dist > 5.0 {
      assert dist * dist > 5.0 * dist by {
        assert dist * dist - 5.0 * dist == dist * (dist - 5.0);
      }
    } else {
      assert dist * dist <= 5.0 * dist by {
        assert 5.0 * dist - dist * dist == dist * (5.0 - dist);
      }
    }
  }

  /** The identities (elements) of a list of particles. */
  ghost function Ids(ps: seq<Particle>): set<nat>
  {
    if ps == [] then {} else Ids(ps[..|ps| - 1]) + {ps[|ps| - 1].id}
  }

  /** Particles appear in the order they were created: ids strictly increase. */
  ghost predicate Increasing(ps: seq<Particle>)
  {
    forall i, j :: 0 <= i < j < |ps| ==> ps[i].id < ps[j].id
  }

  /** The sweep's keep test: age at most `MaxAge`. */
  predicate Young(p: Particle, now: int)
  {
    now - p.timestamp <= MaxAge
  }

  /** `removeOldestParticle` on the list: drop the first entry, if any. */
  function Evict(ps: seq<Particle>): (r: seq<Particle>)
    ensures ps != [] ==> [ps[0]] + r == ps
    ensures ps == [] ==> r == []
  {
    if ps == [] then [] else ps[1..]
  }

  /** Spawn timestamps never decrease along the list. */
  ghost predicate TimeSorted(ps: seq<Particle>)
  {
    forall i, j :: 0 <= i < j < |ps| ==> ps[i].timestamp <= ps[j].timestamp
  }

  /** With sorted timestamps, the entry `Evict` drops is one with the earliest timestamp. */
  lemma EvictEarliest(ps: seq<Particle>)
    requires TimeSorted(ps) && ps != []
    ensures forall q :: q in ps ==> ps[0].timestamp <= q.timestamp
  {
    forall q | q in ps ensures ps[0].timestamp <= q.timestamp {
      var j :| 0 <= j < |ps| && ps[j] == q;
      if j > 0 {
        assert ps[0].timestamp <= ps[j].timestamp;
      }
    }
  }

  /** The entry `Evict` drops can be the later one when the clock went back between spawns. */
  lemma EvictNotEarliest()
    ensures Evict([Particle(0, 10), Particle(1, 5)]) == [Particle(1, 5)]
    ensures !TimeSorted([Particle(0, 10), Particle(1, 5)])
  {
    var ps := [Particle(0, 10), Particle(1, 5)];
    assert ps[0].timestamp > ps[1].timestamp;
  }

  /** `createParticle` on the list: evict the oldest at the cap, then append. */
  function Spawn(ps: seq<Particle>, p: Particle): (r: seq<Particle>)
    ensures |ps| <= MaxParticles ==> |r| <= MaxParticles
    ensures |ps| < MaxParticles ==> |r| == |ps| + 1
    ensures |ps| >= MaxParticles ==> |r| == |ps|
    ensures r[|r| - 1] == p
  {
    (if |ps| >= MaxParticles then Evict(ps) else ps) + [p]
  }

  /** A spawn stamped no earlier than every entry keeps the timestamps sorted. */
  lemma SpawnKeepsTimeOrder(ps: seq<Particle>, p: Particle)
    requires TimeSorted(ps)
    requires forall q :: q in ps ==> q.timestamp <= p.timestamp
    ensures TimeSorted(Spawn(ps, p))
  {
    var base := if |ps| >= MaxParticles then Evict(ps) else ps;
    assert forall i :: 0 <= i < |base| ==> base[i] in ps by {
      forall i | 0 <= i < |base| ensures base[i] in ps {
        if |ps| >= MaxParticles {
          assert base[i] == ps[i + 1];
        }
      }
    }
    var r := Spawn(ps, p);
    forall i, j | 0 <= i < j < |r| ensures r[i].timestamp <= r[j].timestamp {
      if j < |base| {
        if |ps| >= MaxParticles {
          assert r[i] == ps[i + 1] && r[j] == ps[j + 1];
        }
      } else {
        assert r[i] == base[i];
      }
    }
  }

  /** The timer callback's `filter(p => p.element !== particle)`. */
  function RemoveById(ps: seq<Particle>, id: nat): (r: seq<Particle>)
    ensures |r| <= |ps|
    ensures forall i :: 0 <= i < |r| ==> r[i].id != id
  {
    Filter(ps, (q: Particle) => q.id != id)
  }

  /** The `cleanup` filter: keep the particles that are not too old. */
  function Sweep(ps: seq<Particle>, now: int): (r: seq<Particle>)
    ensures |r| <= |ps|
    ensures forall i :: 0 <= i < |r| ==> now - r[i].timestamp <= MaxAge
  {
    Filter(ps, (q: Particle) => Young(q, now))
  }

  lemma {:induction false} IdsConcat(a: seq<Particle>, b: seq<Particle>)
    ensures Ids(a + b) == Ids(a) + Ids(b)
    decreases |b|
  {
    if b == [] {
      assert a + b == a;
    } else {
      var binit := b[..|b| - 1];
      assert (a + b)[..|a + b| - 1] == a + binit;
      IdsConcat(a, binit);
    }
  }

  /** An identity is live exactly when some entry carries it. */
  lemma {:induction false} IdsMember(ps: seq<Particle>, id: nat)
    ensures id in Ids(ps) <==> exists i :: 0 <= i < |ps| && ps[i].id == id
  {
    if ps != [] {
      var init := ps[..|ps| - 1];
      IdsMember(init, id);
      assert forall i :: 0 <= i < |init| ==> init[i] == ps[i];
    }
  }

  /** An upper bound on every entry's id bounds the set of identities. */
  lemma {:induction false} IdsBelow(ps: seq<Particle>, hi: int)
    requires forall i :: 0 <= i < |ps| ==> ps[i].id < hi
    ensures forall x :: x in Ids(ps) ==> x < hi
  {
    if ps != [] {
      var init := ps[..|ps| - 1];
      assert forall i :: 0 <= i < |init| ==> init[i] == ps[i];
      IdsBelow(init, hi);
    }
  }

  /** A lower bound on every entry's id bounds the set of identities. */
  lemma {:induction false} IdsAbove(ps: seq<Particle>, lo: int)
    requires forall i :: 0 <= i < |ps| ==> lo < ps[i].id
    ensures forall x :: x in Ids(ps) ==> lo < x
  {
    if ps != [] {
      var init := ps[..|ps| - 1];
      assert forall i :: 0 <= i < |init| ==> init[i] == ps[i];
      IdsAbove(init, lo);
    }
  }

  /** The identities on either side of position `i`. */
  lemma SplitIds(ps: seq<Particle>, i: nat)
    requires i < |ps|
    ensures Ids(ps) == Ids(ps[..i]) + {ps[i].id} + Ids(ps[i + 1..])
    ensures Ids(ps[..i + 1]) == Ids(ps[..i]) + {ps[i].id}
    ensures Ids(ps[i..]) == {ps[i].id} + Ids(ps[i + 1..])
  {
    PrefixIds(ps, i);
    SuffixIds(ps, i);
    WholeIds(ps, i);
  }

  lemma PrefixIds(ps: seq<Particle>, i: nat)
    requires i < |ps|
    ensures Ids(ps[..i + 1]) == Ids(ps[..i]) + {ps[i].id}
  {
    assert ps[..i + 1] == ps[..i] + [ps[i]];
    IdsSnoc(ps[..i], ps[i]);
  }

  lemma SuffixIds(ps: seq<Particle>, i: nat)
    requires i < |ps|
    ensures Ids(ps[i..]) == {ps[i].id} + Ids(ps[i + 1..])
  {
    assert ps[i..] == [ps[i]] + ps[i + 1..];
    IdsConcat([ps[i]], ps[i + 1..]);
    IdsSnoc([], ps[i]);
    assert [] + [ps[i]] == [ps[i]];
  }

  lemma WholeIds(ps: seq<Particle>, i: nat)
    requires i < |ps|
    ensures Ids(ps) == Ids(ps[..i]) + {ps[i].id} + Ids(ps[i + 1..])
  {
    assert ps == ps[..i + 1] + ps[i + 1..];
    IdsConcat(ps[..i + 1], ps[i + 1..]);
    PrefixIds(ps, i);
  }

  /** In creation order, the identity at position `i` occurs nowhere else. */
  lemma SplitFresh(ps: seq<Particle>, i: nat)
    requires Increasing(ps) && i < |ps|
    ensures ps[i].id !in Ids(ps[..i]) && ps[i].id !in Ids(ps[i + 1..])
  {
    var a, b := ps[..i], ps[i + 1..];
    forall j | 0 <= j < |a| ensures a[j].id < ps[i].id {
      assert a[j] == ps[j];
    }
    IdsBelow(a, ps[i].id);
    forall j | 0 <= j < |b| ensures ps[i].id < b[j].id {
      assert b[j] == ps[i + 1 + j];
    }
    IdsAbove(b, ps[i].id);
  }

  /** Appending one entry adds its identity. */
  lemma IdsSnoc(ps: seq<Particle>, p: Particle)
    ensures Ids(ps + [p]) == Ids(ps) + {p.id}
  {
    assert (ps + [p])[..|ps|] == ps;
  }

  /** A filter of an increasing list is increasing and uses only ids it had. */
  lemma {:induction false} IncreasingFilter(ps: seq<Particle>, keep: Particle -> bool)
    requires Increasing(ps)
    ensures Increasing(Filter(ps, keep))
    ensures Ids(Filter(ps, keep)) <= Ids(ps)
  {
    if ps != [] {
      var init := ps[..|ps| - 1];
      var last := ps[|ps| - 1];
      IncreasingFilter(init, keep);
      var f := Filter(init, keep);
      forall k | 0 <= k < |f| ensures f[k].id < last.id {
        FilterMembers(init, keep, f[k]);
      }
      IdsConcat(f, if keep(last) then [last] else []);
    }
  }

  /** An upper bound on every id survives filtering. */
  lemma {:induction false} FilterBelow(ps: seq<Particle>, keep: Particle -> bool, hi: int)
    requires forall i :: 0 <= i < |ps| ==> ps[i].id < hi
    ensures forall i :: 0 <= i < |Filter(ps, keep)| ==> Filter(ps, keep)[i].id < hi
  {
    if ps != [] {
      var init := ps[..|ps| - 1];
      assert forall i :: 0 <= i < |init| ==> init[i] == ps[i];
      FilterBelow(init, keep, hi);
    }
  }

  /** `cleanup(now)` keeps exactly the entries of age at most 2000 ms. */
  lemma SweepMembers(ps: seq<Particle>, now: int, q: Particle)
    ensures q in Sweep(ps, now) <==> q in ps && now - q.timestamp <= MaxAge
  {
    FilterMembers(ps, (p: Particle) => Young(p, now), q);
  }

  /** After a sweep no remaining particle is older than the hard ceiling. */
  lemma SweepAllYoung(ps: seq<Particle>, now: int)
    ensures forall q :: q in Sweep(ps, now) ==> now - q.timestamp <= MaxAge
  {
    forall q | q in Sweep(ps, now) ensures now - q.timestamp <= MaxAge {
      SweepMembers(ps, now, q);
    }
  }

  /** The sweep keeps relative order: it distributes over concatenation. */
  lemma SweepConcat(a: seq<Particle>, b: seq<Particle>, now: int)
    ensures Sweep(a + b, now) == Sweep(a, now) + Sweep(b, now)
  {
    FilterConcat(a, b, (p: Particle) => Young(p, now));
  }

  /** Sweeping twice at the same instant removes nothing more. */
  lemma SweepIdempotent(ps: seq<Particle>, now: int)
    ensures Sweep(Sweep(ps, now), now) == Sweep(ps, now)
  {
    var s := Sweep(ps, now);
    forall i | 0 <= i < |s| ensures Young(s[i], now) {
      SweepMembers(ps, now, s[i]);
    }
    FilterAllKept(s, (p: Particle) => Young(p, now));
  }

  /** A timer firing for a particle that is already gone changes nothing. */
  lemma RemoveByIdAbsent(ps: seq<Particle>, id: nat)
    requires id !in Ids(ps)
    ensures RemoveById(ps, id) == ps
  {
    IdsMember(ps, id);
    FilterAllKept(ps, (q: Particle) => q.id != id);
  }

  /** In an increasing list no other position shares the identity at `k`. */
  lemma OnlyAt(ps: seq<Particle>, k: nat)
    requires Increasing(ps) && k < |ps|
    ensures forall i :: 0 <= i < |ps| && i != k ==> ps[i].id != ps[k].id
  {
  }

  /** A position holding a given live identity. */
  lemma PositionOf(ps: seq<Particle>, id: nat) returns (k: nat)
    requires id in Ids(ps)
    ensures k < |ps| && ps[k].id == id
  {
    IdsMember(ps, id);
    k :| 0 <= k < |ps| && ps[k].id == id;
  }

  /** Filtering out the identity at position `k` removes exactly that position. */
  lemma RemoveAt(ps: seq<Particle>, k: nat)
    requires Increasing(ps) && k < |ps|
    ensures RemoveById(ps, ps[k].id) == ps[..k] + ps[k + 1..]
  {
    OnlyAt(ps, k);
    var keep := (q: Particle) => q.id != ps[k].id;
    assert forall i :: 0 <= i < |ps| && i != k ==> keep(ps[i]);
    FilterDropsOne(ps, keep, k);
  }

  /** Without position `k`, exactly the identity at `k` is gone. */
  lemma IdsWithout(ps: seq<Particle>, k: nat)
    requires Increasing(ps) && k < |ps|
    ensures Ids(ps[..k] + ps[k + 1..]) == Ids(ps) - {ps[k].id}
  {
    SplitIds(ps, k);
    SplitFresh(ps, k);
    IdsConcat(ps[..k], ps[k + 1..]);
  }

  /** A timer firing for a live particle removes that one entry and nothing else. */
  lemma RemoveByIdPresent(ps: seq<Particle>, id: nat) returns (k: nat)
    requires Increasing(ps) && id in Ids(ps)
    ensures k < |ps| && ps[k].id == id
    ensures RemoveById(ps, id) == ps[..k] + ps[k + 1..]
    ensures |RemoveById(ps, id)| == |ps| - 1
    ensures Ids(RemoveById(ps, id)) == Ids(ps) - {id}
  {
    k := PositionOf(ps, id);
    RemoveAt(ps, k);
    IdsWithout(ps, k);
  }

  /** One more step of the sweep over a prefix of `ps`. */
  lemma SweepStep(ps: seq<Particle>, i: nat, now: int)
    requires i < |ps|
    ensures Sweep(ps[..i + 1], now) == Sweep(ps[..i], now) + (if Young(ps[i], now) then [ps[i]] else [])
  {
    assert ps[..i + 1][..i] == ps[..i];
  }

  /** A step of `cleanup` that keeps `ps[i]`: it moves from the unvisited part to the kept part. */
  lemma CleanupKeep(ps: seq<Particle>, i: nat, kept: seq<Particle>, now: int)
    requires i < |ps| && Young(ps[i], now)
    requires kept == Sweep(ps[..i], now) && Ids(kept) <= Ids(ps[..i])
    ensures kept + [ps[i]] == Sweep(ps[..i + 1], now)
    ensures Ids(kept + [ps[i]]) <= Ids(ps[..i + 1])
    ensures Ids(kept) + Ids(ps[i..]) == Ids(kept + [ps[i]]) + Ids(ps[i + 1..])
  {
    SplitIds(ps, i);
    SweepStep(ps, i, now);
    IdsSnoc(kept, ps[i]);
  }

  /** A step of `cleanup` that drops `ps[i]`: only its identity leaves the attached set. */
  lemma CleanupDrop(ps: seq<Particle>, i: nat, kept: seq<Particle>, now: int)
    requires Increasing(ps) && i < |ps| && !Young(ps[i], now)
    requires kept == Sweep(ps[..i], now) && Ids(kept) <= Ids(ps[..i])
    ensures kept == Sweep(ps[..i + 1], now)
    ensures Ids(kept) <= Ids(ps[..i + 1])
    ensures (Ids(kept) + Ids(ps[i..])) - {ps[i].id} == Ids(kept) + Ids(ps[i + 1..])
  {
    SplitIds(ps, i);
    SplitFresh(ps, i);
    SweepStep(ps, i, now);
  }

  /**
   * The bookkeeping the effect maintains: at most 80 entries, in creation
   * order, every id below the next one to be issued, and the container's
   * children exactly the listed elements.
   */
  ghost predicate Tracked(ps: seq<Particle>, attached: set<nat>, bound: nat)
  {
    && |ps| <= MaxParticles
    && Increasing(ps)
    && (forall i :: 0 <= i < |ps| ==> ps[i].id < bound)
    && attached == Ids(ps)
  }

  /** Shifting off the first entry and detaching its element keeps the bookkeeping. */
  lemma TrackedEvict(ps: seq<Particle>, attached: set<nat>, bound: nat)
    requires Tracked(ps, attached, bound) && ps != []
    ensures ps[0].id in attached
    ensures Tracked(ps[1..], attached - {ps[0].id}, bound)
  {
    SplitIds(ps, 0);
    SplitFresh(ps, 0);
    assert ps[..0] == [];
    assert ps[0 + 1..] == ps[1..];
  }

  /** Appending a particle with a fresh id below the cap keeps the bookkeeping. */
  lemma TrackedPush(ps: seq<Particle>, attached: set<nat>, bound: nat, now: int)
    requires Tracked(ps, attached, bound) && |ps| < MaxParticles
    ensures bound !in attached
    ensures Tracked(ps + [Particle(bound, now)], attached + {bound}, bound + 1)
  {
    IdsSnoc(ps, Particle(bound, now));
    IdsBelow(ps, bound);
  }

  /** Removing a live particle and detaching it keeps the bookkeeping. */
  lemma TrackedRemove(ps: seq<Particle>, attached: set<nat>, bound: nat, id: nat)
    requires Tracked(ps, attached, bound) && id in attached
    ensures |RemoveById(ps, id)| == |ps| - 1
    ensures Tracked(RemoveById(ps, id), attached - {id}, bound)
  {
    var k := RemoveByIdPresent(ps, id);
    IncreasingFilter(ps, (q: Particle) => q.id != id);
    FilterBelow(ps, (q: Particle) => q.id != id, bound);
  }

  /** Sweeping a well-kept list, with only the survivors attached, keeps the bookkeeping. */
  lemma SweepTracked(ps: seq<Particle>, attached: set<nat>, bound: nat, now: int)
    requires Tracked(ps, attached, bound)
    ensures Tracked(Sweep(ps, now), Ids(Sweep(ps, now)), bound)
  {
    IncreasingFilter(ps, (q: Particle) => Young(q, now));
    FilterBelow(ps, (q: Particle) => Young(q, now), bound);
  }

  /**
   * The `filter` of `cleanup(now)` with its side effect: walk the list,
   * detaching every particle older than 2000 ms and keeping the others
   * in order.
   */
  method SweepDetach(ps: seq<Particle>, attached: set<nat>, bound: nat, now: int)
    returns (kept: seq<Particle>, left: set<nat>)
    requires Tracked(ps, attached, bound)
    ensures kept == Sweep(ps, now)
    ensures Tracked(kept, left, bound)
    ensures forall q :: q in kept ==> now - q.timestamp <= MaxAge
  {
    kept, left := [], attached;
    var i := 0;
    while i < |ps|
      invariant 0 <= i <= |ps|
      invariant kept == Sweep(ps[..i], now)
      invariant Ids(kept) <= Ids(ps[..i])
      invariant left == Ids(kept) + Ids(ps[i..])
    {
      var q := ps[i];
      if now - q.timestamp > MaxAge {
        CleanupDrop(ps, i, kept, now);
        if q.id in left {
          left := left - {q.id};
        }
      } else {
        CleanupKeep(ps, i, kept, now);
        kept := kept + [q];
      }
      i := i + 1;
    }
    assert ps[..i] == ps;
    assert ps[i..] == [];
    SweepTracked(ps, attached, bound, now);
  }

  /** The last `MaxParticles` entries of `s`. */
  function Window(s: seq<Particle>): (r: seq<Particle>)
    ensures |r| <= MaxParticles
  {
    if |s| <= MaxParticles then s else s[|s| - MaxParticles..]
  }

  /** A run of spawns, one per entry of `qs`, with no sweep or timer in between. */
  function SpawnAll(ps: seq<Particle>, qs: seq<Particle>): seq<Particle>
    decreases |qs|
  {
    if qs == [] then ps else SpawnAll(Spawn(ps, qs[0]), qs[1..])
  }

  lemma WindowAppend(a: seq<Particle>, b: seq<Particle>)
    ensures Window(Window(a) + b) == Window(a + b)
  {
    if |a| > MaxParticles && b != [] {
      var w := a[|a| - MaxParticles..];
      var lhs := (w + b)[|w + b| - MaxParticles..];
      var rhs := (a + b)[|a + b| - MaxParticles..];
      assert |lhs| == |rhs|;
      forall x | 0 <= x < |lhs| ensures lhs[x] == rhs[x] {
        if x + |b| < MaxParticles {
          assert lhs[x] == w[x + |b|] == a[|a| - MaxParticles + x + |b|];
        }
      }
    }
  }

  /**
   * FIFO with a cap: after any run of spawns the list holds exactly the
   * newest 80 of all entries ever pushed, oldest first.
   */
  lemma {:induction false} SpawnAllWindow(ps: seq<Particle>, qs: seq<Particle>)
    requires |ps| <= MaxParticles
    ensures SpawnAll(ps, qs) == Window(ps + qs)
    decreases |qs|
  {
    if qs != [] {
      var ps' := Spawn(ps, qs[0]);
      assert ps' == Window(ps + [qs[0]]);
      SpawnAllWindow(ps', qs[1..]);
      WindowAppend(ps + [qs[0]], qs[1..]);
      assert ps + [qs[0]] + qs[1..] == ps + qs;
    }
  }

  /** 81 spawns into an empty list leave 80 particles, without the first one. */
  lemma EightyOneSpawns(qs: seq<Particle>)
    requires |qs| == MaxParticles + 1
    ensures |SpawnAll([], qs)| == MaxParticles
    ensures SpawnAll([], qs) == qs[1..]
  {
    SpawnAllWindow([], qs);
    assert [] + qs == qs;
  }

  class SmokeEffect {
    /** The tracking array `particles`, oldest first. */
    var particles: seq<Particle>
    /** The ids of the particle elements currently in the container. */
    var attached: set<nat>
    var mousePos: Point
    var lastMousePos: Point
    /** Identity of the next element `createParticle` makes. */
    var nextId: nat

    ghost predicate Valid()
      reads this
    {
      Tracked(particles, attached, nextId)
    }

    constructor ()
      ensures Valid()
      ensures particles == [] && attached == {}
      ensures mousePos == Point(0, 0) && lastMousePos == Point(0, 0)
    {
      particles := [];
      attached := {};
      mousePos := Point(0, 0);
      lastMousePos := Point(0, 0);
      nextId := 0;
    }

    /** The mousemove handler: record the move, spawn if it was far enough. */
    method OnMouseMove(p: Point, now: int, duration: nat) returns (timer: Option<Timeout>)
      requires Valid() && 1000 <= duration < 1800
      modifies this
      ensures Valid()
      ensures lastMousePos == old(mousePos) && mousePos == p
      ensures ShouldSpawn(old(mousePos), p) ==>
                && particles == Spawn(old(particles), Particle(old(nextId), now))
                && timer == Some(Timeout(old(nextId), duration))
                && nextId == old(nextId) + 1
      ensures !ShouldSpawn(old(mousePos), p) ==>
                && particles == old(particles) && attached == old(attached)
                && nextId == old(nextId) && timer == None
    {
      lastMousePos := mousePos;
      mousePos := p;
      if ShouldSpawn(lastMousePos, mousePos) {
        var t := CreateParticle(now, duration);
        timer := Some(t);
      } else {
        timer := None;
      }
    }

    /** `createParticle`: evict the oldest at the cap, add a new particle, schedule its removal. */
    method CreateParticle(now: int, duration: nat) returns (timer: Timeout)
      requires Valid() && 1000 <= duration < 1800
      modifies this
      ensures Valid()
      ensures particles == Spawn(old(particles), Particle(old(nextId), now))
      ensures attached == Ids(particles)
      ensures nextId == old(nextId) + 1
      ensures timer == Timeout(old(nextId), duration)
      ensures mousePos == old(mousePos) && lastMousePos == old(lastMousePos)
    {
      if |particles| >= MaxParticles {
        RemoveOldestParticle();
      }
      var id := nextId;
      TrackedPush(particles, attached, nextId, now);
      nextId := nextId + 1;
      attached := attached + {id};
      particles := particles + [Particle(id, now)];
      timer := Timeout(id, duration);
    }

    /** `removeOldestParticle`: shift off the first entry and detach its element. */
    method RemoveOldestParticle()
      requires Valid()
      modifies this
      ensures Valid()
      ensures particles == Evict(old(particles))
      ensures old(particles) != [] ==> attached == old(attached) - {old(particles)[0].id}
      ensures old(particles) == [] ==> attached == old(attached)
      ensures nextId == old(nextId)
      ensures mousePos == old(mousePos) && lastMousePos == old(lastMousePos)
    {
      if |particles| > 0 {
        var oldest := particles[0];
        TrackedEvict(particles, attached, nextId);
        particles := particles[1..];
        if oldest.id in attached {
          attached := attached - {oldest.id};
        }
      }
    }

    /** The per-particle timeout: remove that particle only if it is still attached. */
    method OnTimeout(id: nat)
      requires Valid()
      modifies this
      ensures Valid()
      ensures old(id in attached) ==>
                && particles == RemoveById(old(particles), id)
                && |particles| == old(|particles|) - 1
                && attached == old(attached) - {id}
      ensures old(id !in attached) ==> particles == old(particles) && attached == old(attached)
      ensures nextId == old(nextId)
      ensures mousePos == old(mousePos) && lastMousePos == old(lastMousePos)
    {
      if id in attached {
        TrackedRemove(particles, attached, nextId, id);
        attached := attached - {id};
        particles := RemoveById(particles, id);
      }
    }

    /** `cleanup(now)`: detach and drop every particle older than 2000 ms. */
    method Cleanup(now: int)
      requires Valid()
      modifies this
      ensures Valid()
      ensures particles == Sweep(old(particles), now)
      ensures forall q :: q in particles ==> now - q.timestamp <= MaxAge
      ensures nextId == old(nextId)
      ensures mousePos == old(mousePos) && lastMousePos == old(lastMousePos)
    {
      particles, attached := SweepDetach(particles, attached, nextId, now);
    }
  }

  /** The scenarios of a short pointer trace, as a client sees them. */
  method PointerTrace()
  {
    var fx := new SmokeEffect();
    var t := fx.OnMouseMove(Point(10, 0), 0, 1000);
    assert ShouldSpawn(Point(0, 0), Point(10, 0));
    assert |fx.particles| == 1 && t.Some?;
    t := fx.OnMouseMove(Point(10, 3), 10, 1000);
    assert !ShouldSpawn(Point(10, 0), Point(10, 3));
    assert |fx.particles| == 1 && t == None;
    assert fx.mousePos == Point(10, 3) && fx.lastMousePos == Point(10, 0);
  }
}
