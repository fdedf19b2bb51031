/** The stochastic address manager: six indexes that must stay mutually consistent. */
module AddrMan {
  import opened AddrTables
  import opened Bounds
  import opened Sets
  import opened Wrappers

  datatype GoodOutcome = Unknown | OtherPort | AlreadyTried | NoBucket | Collided | Moved

  /** Which way `Good_` ends. */
  ghost function GoodCase(env: Env, st: State, id: int, addr: Service, testBeforeEvict: bool): GoodOutcome {
    if id == -1 || id !in st.infos then Unknown
    else if st.infos[id].addr.service != addr then OtherPort
    else if st.infos[id].inTried then AlreadyTried
    else if testBeforeEvict && TriedSlot(env, addr) in st.tried then Collided
    else Moved
  }

  /** How far a bucket is from another one, going round. */
  function Distance(from: int, to: int): (r: int)
    requires 0 <= from < NEW_BUCKET_COUNT && 0 <= to < NEW_BUCKET_COUNT
    ensures 0 <= r < NEW_BUCKET_COUNT
  {
    if from <= to then to - from else to + NEW_BUCKET_COUNT - from
  }

  lemma AtDistance(from: int, to: int)
    requires 0 <= from < NEW_BUCKET_COUNT && 0 <= to < NEW_BUCKET_COUNT
    ensures (Distance(from, to) + from) % NEW_BUCKET_COUNT == to
  {
  }

  ghost predicate SameTimes(info: AddrInfo, info': AddrInfo) {
    info'.lastTry == info.lastTry && info'.lastSuccess == info.lastSuccess && info'.attempts == info.attempts
  }

  /** The statistics of an entry after a connection attempt. */
  function Attempted(info: AddrInfo, countFailure: bool, lastGood: int, time: int): AddrInfo {
    if countFailure && info.lastCountAttempt < lastGood
    then info.(lastTry := time, lastCountAttempt := time, attempts := info.attempts + 1)
    else info.(lastTry := time)
  }

  function United(a: bv64, b: bv64): bv64 { a | b }

  /** What an announcement of a known address does to its entry: the time moves forward once it is
      more than an update interval behind, and services accumulate. */
  function Refreshed(info: AddrInfo, addr: Address, timePenalty: int, now: int): AddrInfo {
    var updateInterval := if now - addr.time < 24 * 60 * 60 then 60 * 60 else 24 * 60 * 60;
    var behind := addr.time != 0
                  && (info.addr.time == 0 || info.addr.time < addr.time - updateInterval - timePenalty);
    var time := if behind then ToUint32(Max(0, addr.time - timePenalty)) else info.addr.time;
    info.(addr := info.addr.(time := time, services := United(info.addr.services, addr.services)))
  }

  datatype Resolution = Dead | Invalid | OldIsGood | NewGoesIn | Undecided

  /** The times read off the clock for one collision: for the success and the attempts of the older
      entry, for the wait after these, for the success of the new one, and for its move. */
  datatype Readings = Readings(forSuccess: int, forTry: int, forWait: int, forTest: int, forMove: int)

  type Clock = int -> Readings

  /** How a remembered collision is resolved: the older entry stays if it succeeded lately, and is
      evicted if it was tried lately without success, or could not be tested for too long. */
  ghost function Resolved(env: Env, st: State, id: int, at: Readings): Resolution {
    if id !in st.infos then Dead
    else if !env.isValid(st.infos[id].Net()) then Invalid
    else
      var slot := TriedSlot(env, st.infos[id].addr.service);
      if slot !in st.tried || st.tried[slot] !in st.infos then Dead
      else
        var older := st.infos[st.tried[slot]];
        if at.forSuccess - older.lastSuccess < REPLACEMENT_HOURS * 60 * 60 then OldIsGood
        else if at.forTry - older.lastTry < REPLACEMENT_HOURS * 60 * 60 then
          (if at.forWait - older.lastTry > 60 then NewGoesIn else Undecided)
        else if at.forTest - st.infos[id].lastSuccess > TEST_WINDOW then NewGoesIn
        else Undecided
  }

  /** The entry in the tried slot that an entry would move to. */
  ghost predicate IsVictim(env: Env, st: State, id: int, victim: AddrInfo) {
    && id in st.infos
    && var slot := TriedSlot(env, st.infos[id].addr.service);
    slot in st.tried && st.tried[slot] in st.infos && st.infos[st.tried[slot]] == victim
  }

  /** One collision resolved, with the state before and after. */
  datatype Visit = Visit(id: int, before: State, after: State)

  /** Each visit starts from the state that the one before it left. */
  ghost predicate Chained(visits: seq<Visit>, first: State, last: State) {
    if visits == [] then first == last
    else
      var v := visits[|visits| - 1];
      v.after == last && Chained(visits[..|visits| - 1], first, v.before)
  }

  ghost function Visited(visits: seq<Visit>): set<int> {
    set v | v in visits :: v.id
  }

  /** The new entry went in, or nothing changed. */
  ghost predicate Decided(env: Env, v: Visit, at: Readings) {
    if Resolved(env, v.before, v.id, at) == NewGoesIn then v.id in v.after.infos && v.after.infos[v.id].inTried
    else v.after == v.before
  }

  /** Each visit did what its readings of the clock ask for, and exactly the undecided are remembered. */
  ghost predicate AllDecided(env: Env, visits: seq<Visit>, clock: Clock, collisions: set<int>) {
    forall v :: v in visits ==>
      && Decided(env, v, clock(v.id))
      && (v.id in collisions <==> Resolved(env, v.before, v.id, clock(v.id)) == Undecided)
  }

  lemma AlsoDecided(env: Env, visits: seq<Visit>, v: Visit, clock: Clock, collisions: set<int>)
    requires AllDecided(env, visits, clock, collisions) && v.id in collisions && v.id !in Visited(visits)
    requires Decided(env, v, clock(v.id))
    ensures var undecided := Resolved(env, v.before, v.id, clock(v.id)) == Undecided;
            AllDecided(env, visits + [v], clock, if undecided then collisions else collisions - {v.id})
  {
    hide Resolved, Decided, Visited;
    forall u | u in visits ensures u.id != v.id {
      VisitedIds(visits, u);
    }
  }

  lemma NoVisits(env: Env, clock: Clock, collisions: set<int>, st: State)
    ensures Chained([], st, st) && Visited([]) == {} && AllDecided(env, [], clock, collisions)
  {
  }

  lemma VisitedIds(visits: seq<Visit>, v: Visit)
    requires v in visits
    ensures v.id in Visited(visits)
  {
  }

  lemma VisitNext(visits: seq<Visit>, first: State, v: Visit)
    requires Chained(visits, first, v.before)
    ensures Chained(visits + [v], first, v.after) && Visited(visits + [v]) == Visited(visits) + {v.id}
  {
    assert (visits + [v])[..|visits|] == visits;
  }

  lemma DecidedOne(env: Env, v: Visit, at: Readings)
    requires if Resolved(env, v.before, v.id, at) == NewGoesIn then v.id in v.after.infos && v.after.infos[v.id].inTried
             else v.after == v.before
    ensures Decided(env, v, at)
  {
    hide Resolved;
  }

  class AddrMan {
    const env: Env
    const vvTried: array2<int>
    const vvNew: array2<int>
    var nIdCount: int
    var mapInfo: Infos
    var mapAddr: map<NetAddr, int>
    var vRandom: seq<int>
    var nTried: int
    var nNew: int
    var nLastGood: int
    var triedCollisions: set<int>

    ghost predicate Arrays() {
      && vvTried.Length0 == TRIED_BUCKET_COUNT && vvTried.Length1 == BUCKET_SIZE
      && vvNew.Length0 == NEW_BUCKET_COUNT && vvNew.Length1 == BUCKET_SIZE
      && vvNew != vvTried
    }

    ghost function St(): State
      reads this, vvTried, vvNew
    {
      State(mapInfo, mapAddr, vRandom, Occupied(vvTried), Occupied(vvNew), nTried, nNew, nIdCount)
    }

    /** The state between any two calls. */
    ghost predicate Valid()
      reads this, vvTried, vvNew
    {
      Arrays() && Settled(env, St(), triedCollisions)
    }

    constructor (env: Env)
      ensures Valid() && this.env == env && mapInfo == map[] && triedCollisions == {}
      ensures fresh(this) && fresh(vvTried) && fresh(vvNew)
    {
      this.env := env;
      vvTried := new int[TRIED_BUCKET_COUNT, BUCKET_SIZE]((_, _) => -1);
      vvNew := new int[NEW_BUCKET_COUNT, BUCKET_SIZE]((_, _) => -1);
      nIdCount, nTried, nNew, nLastGood := 0, 0, 0, 1;
      mapInfo, mapAddr, vRandom, triedCollisions := map[], map[], [], {};
      new;
      assert Occupied(vvTried) == map[] && Occupied(vvNew) == map[];
      NothingIsConsistent(env);
    }

    /** The id stored for a network address, or -1. */
    function Find(net: NetAddr): (r: int)
      reads this
      ensures r != -1 ==> r in mapInfo
    {
      if net in mapAddr && mapAddr[net] in mapInfo then mapAddr[net] else -1
    }

    /** The entry found is that of the address, and none is found only if there is none. */
    lemma FindExact(net: NetAddr)
      requires Valid()
      ensures var id := Find(net);
              if id == -1 then forall n :: n in mapInfo ==> mapInfo[n].Net() != net
              else mapInfo[id].Net() == net && forall n :: n in mapInfo && mapInfo[n].Net() == net ==> n == id
    {
      hide Core, CollisionsOk, Occupied;
      forall n | n in mapInfo ensures mapInfo[n].Net() == net ==> n == Find(net) && n != -1 {
        IndexedByAddress(env, St(), n);
      }
      IndexedByAddress(env, St(), 0);
    }

    method Create(addr: Address, source: NetAddr) returns (id: int)
      modifies `nIdCount, `mapInfo, `mapAddr, `vRandom
      ensures id == old(nIdCount) && St() == Created(old(St()), addr, source)
    {
      id := nIdCount;
      nIdCount := nIdCount + 1;
      mapInfo := mapInfo[id := NewInfo(addr, source)];
      mapAddr := mapAddr[addr.service.net := id];
      mapInfo := mapInfo[id := mapInfo[id].(randomPos := |vRandom|)];
      vRandom := vRandom + [id];
    }

    /** The asserts of the program are the preconditions. */
    method SwapRandom(p1: int, p2: int)
      requires p1 != p2 ==> 0 <= p1 < |vRandom| && 0 <= p2 < |vRandom|
      requires p1 != p2 ==> vRandom[p1] in mapInfo && vRandom[p2] in mapInfo && vRandom[p1] != vRandom[p2]
      modifies `mapInfo, `vRandom
      ensures p1 == p2 ==> St() == old(St())
      ensures p1 != p2 ==> St() == Swapped(old(St()), p1, p2)
    {
      if p1 == p2 {
        return;
      }
      var id1, id2 := vRandom[p1], vRandom[p2];
      mapInfo := mapInfo[id1 := mapInfo[id1].(randomPos := p2)];
      mapInfo := mapInfo[id2 := mapInfo[id2].(randomPos := p1)];
      vRandom := vRandom[p1 := id2][p2 := id1];
    }

    method Delete(id: int)
      requires RandomOk(mapInfo, vRandom)
      requires id in mapInfo && !mapInfo[id].inTried && mapInfo[id].refCount == 0
      modifies `mapInfo, `mapAddr, `vRandom, `nNew
      ensures St() == Deleted(old(St()), id)
    {
      hide Occupied;
      assert 0 <= mapInfo[id].randomPos < |vRandom|;
      SwapRandom(mapInfo[id].randomPos, |vRandom| - 1);
      vRandom := vRandom[..|vRandom| - 1];
      mapAddr := mapAddr - {mapInfo[id].Net()};
      mapInfo := mapInfo - {id};
      nNew := nNew - 1;
    }

    /** Empties a slot of the new table, deleting an entry that loses its last slot. */
    method ClearNew(s: Slot)
      requires Arrays() && 0 <= s.bucket < NEW_BUCKET_COUNT && 0 <= s.pos < BUCKET_SIZE
      requires RandomOk(mapInfo, vRandom)
      requires var id := vvNew[s.bucket, s.pos];
               id != -1 ==> id in mapInfo && !mapInfo[id].inTried && mapInfo[id].refCount > 0
      modifies `mapInfo, `mapAddr, `vRandom, `nNew, vvNew
      ensures St() == Cleared(old(St()), s)
    {
      if vvNew[s.bucket, s.pos] != -1 {
        var id := vvNew[s.bucket, s.pos];
        RecountKeepsOrder(mapInfo, vRandom, id, mapInfo[id].refCount - 1);
        mapInfo := mapInfo[id := mapInfo[id].(refCount := mapInfo[id].refCount - 1)];
        SetSlot(vvNew, s, -1);
        if mapInfo[id].refCount == 0 {
          Delete(id);
        }
      }
    }

    /** Takes an entry out of one new bucket, if it is there. */
    method RemoveFromBucket(id: int, bucket: int)
      requires Arrays() && id in mapInfo && id != -1 && 0 <= bucket < NEW_BUCKET_COUNT
      modifies `mapInfo, vvNew
      ensures var s := NewSlotIn(env, old(mapInfo[id].addr.service), bucket);
              var found := old(s in Occupied(vvNew) && Occupied(vvNew)[s] == id);
              && Occupied(vvNew) == (if found then old(Occupied(vvNew)) - {s} else old(Occupied(vvNew)))
              && mapInfo == (if found then WithCount(old(mapInfo), id, old(mapInfo[id].refCount) - 1)
                             else old(mapInfo))
    {
      var slot := NewSlotIn(env, mapInfo[id].addr.service, bucket);
      if vvNew[slot.bucket, slot.pos] == id {
        SetSlot(vvNew, slot, -1);
        mapInfo := mapInfo[id := mapInfo[id].(refCount := mapInfo[id].refCount - 1)];
      }
    }

    /** Takes an entry out of all its new buckets. */
    method RemoveFromNew(id: int)
      requires Arrays() && NewOk(env, mapInfo, Occupied(vvNew), {})
      requires id in mapInfo && id != -1 && !mapInfo[id].inTried
      modifies `mapInfo, `nNew, vvNew
      ensures St() == Unlisted(old(St()), id)
    {
      hide NewOk, Searched, SlotsOf, IsTableOf;
      ghost var infos, table := mapInfo, Occupied(vvNew);
      SlotsCounted(env, infos, table, id);
      SearchEnds(env, infos, table, id);
      Recount(infos, id, 0);
      for bucket := 0 to NEW_BUCKET_COUNT
        invariant nNew == old(nNew) && Occupied(vvNew) == Searched(table, id, bucket)
        invariant mapInfo == WithCount(infos, id, |SlotsOf(Searched(table, id, bucket), id)|)
      {
        SearchStep(env, infos, table, id, bucket);
        Recount(infos, id, mapInfo[id].refCount);
        RemoveFromBucket(id, bucket);
      }
      nNew := nNew - 1;
      assert mapInfo[id].refCount == 0;
    }

    /** Writes an entry into a new slot with its new reference count. */
    method Reference(s: Slot, id: int, count: int)
      requires Arrays() && InRange(vvNew, s) && id in mapInfo && id != -1 && count == mapInfo[id].refCount + 1
      modifies `mapInfo, vvNew
      ensures St() == Referenced(old(St()), s, id)
    {
      mapInfo := mapInfo[id := mapInfo[id].(refCount := count)];
      SetSlot(vvNew, s, id);
    }

    /** Takes the entry out of a tried slot. */
    method Evict(s: Slot) returns (id: int)
      requires Arrays() && InRange(vvTried, s) && s in Occupied(vvTried) && Occupied(vvTried)[s] in mapInfo
      modifies `mapInfo, `nTried, vvTried
      ensures id == old(Occupied(vvTried)[s]) && St() == Evicted(old(St()), s)
    {
      id := vvTried[s.bucket, s.pos];
      mapInfo := mapInfo[id := mapInfo[id].(inTried := false)];
      SetSlot(vvTried, s, -1);
      nTried := nTried - 1;
    }

    /** Writes an entry into its tried slot. */
    method Promote(id: int)
      requires Arrays() && id in mapInfo && id != -1
      modifies `mapInfo, `nTried, vvTried
      ensures St() == Promoted(env, old(St()), id)
    {
      SetSlot(vvTried, TriedSlot(env, mapInfo[id].addr.service), id);
      nTried := nTried + 1;
      mapInfo := mapInfo[id := mapInfo[id].(inTried := true)];
    }

    /** Puts an entry into a new slot, whatever is there. */
    method InsertAt(id: int, s: Slot, count: int)
      requires Arrays() && InRange(vvNew, s) && CanInsert(St(), id, s) && count == mapInfo[id].refCount + 1
      modifies `mapInfo, `mapAddr, `vRandom, `nNew, vvNew
      ensures St() == Inserted(old(St()), id, s)
    {
      ClearNew(s);
      Reference(s, id, count);
    }

    /** Moves the occupant of a tried slot, if there is one, back to the new table. */
    method MakeRoom(slot: Slot, ghost limbo: set<int>)
      requires Arrays() && InRange(vvTried, slot) && Core(env, St(), limbo, 0)
      modifies `mapInfo, `mapAddr, `vRandom, `nNew, `nTried, vvNew, vvTried
      ensures St() == RoomMade(env, old(St()), slot, limbo)
    {
      hide Core, Occupied, Inserted;
      OccupiedIs(vvTried, slot);
      if vvTried[slot.bucket, slot.pos] != -1 {
        TriedNotInLimbo(env, St(), slot, limbo);
        EvictKeeps(env, St(), slot, limbo);
        var id := Evict(slot);
        LimboCanInsert(env, St(), id, limbo + {id});
        InsertAt(id, HomeSlot(env, mapInfo[id]), 1);
        nNew := nNew + 1;
      }
    }

    /** Moves an entry from the new table to the tried table. */
    method MakeTried(id: int)
      requires Arrays() && Core(env, St(), {}, 0) && id in mapInfo && !mapInfo[id].inTried
      modifies `mapInfo, `mapAddr, `vRandom, `nNew, `nTried, vvNew, vvTried
      ensures St() == TriedMade(env, old(St()), id)
    {
      hide AddrOk, RandomOk, TriedOk, NewOk, CountOk, TimesOk, Occupied;
      var slot := TriedSlot(env, mapInfo[id].addr.service);
      UnlistKeeps(env, St(), id);
      RemoveFromNew(id);
      MakeRoomKeeps(env, St(), slot, {id});
      MakeRoom(slot, {id});
      Promote(id);
    }

    /** Replaces the statistics of an entry. */
    method Restate(id: int, info: AddrInfo)
      requires Valid() && id in mapInfo && SameEntry(mapInfo[id], info)
      requires TimesFit(env, info)
      modifies `mapInfo
      ensures Valid() && St() == Restated(old(St()), id, info) && Descends(old(mapInfo), mapInfo)
    {
      hide Core, CollisionsOk, Occupied, SameEntry, TimesFit;
      RestateSettles(env, St(), id, info, triedCollisions);
      mapInfo := mapInfo[id := info];
    }

    /** Searches the new buckets, from a random one on, for an entry. */
    method FindBucket(id: int) returns (b: int)
      requires Arrays() && id in mapInfo
      ensures b != -1 ==> 0 <= b < NEW_BUCKET_COUNT
      ensures b == -1 ==> forall c :: 0 <= c < NEW_BUCKET_COUNT ==>
                vvNew[c, BucketPosition(env, mapInfo[id].addr.service, true, c)] != id
    {
      hide BucketPosition;
      var rnd :| 0 <= rnd < NEW_BUCKET_COUNT;
      for n := 0 to NEW_BUCKET_COUNT
        invariant forall c :: 0 <= c < NEW_BUCKET_COUNT && Distance(rnd, c) < n ==>
          vvNew[c, BucketPosition(env, mapInfo[id].addr.service, true, c)] != id
      {
        var c := (n + rnd) % NEW_BUCKET_COUNT;
        forall d | 0 <= d < NEW_BUCKET_COUNT && Distance(rnd, d) == n ensures d == c {
          AtDistance(rnd, d);
        }
        if vvNew[c, BucketPosition(env, mapInfo[id].addr.service, true, c)] == id {
          return c;
        }
      }
      b := -1;
    }

    /** An entry that is not tried is in some new bucket, so the search finds it. */
    method FindOwnBucket(id: int) returns (b: int)
      requires Arrays() && Core(env, St(), {}, 0) && id in mapInfo && !mapInfo[id].inTried
      ensures b != -1
    {
      b := FindBucket(id);
      HasSlot(env, St(), id);
    }

    /** Marks an entry as good. Apart from the tried slot it may enter, nothing is
        vacated there, and the "no bucket is found" exit is never taken. */
    method Good_(addr: Service, testBeforeEvict: bool, time: int) returns (r: GoodOutcome)
      requires Valid() && (env.positiveClocks ==> time > 0)
      modifies this, vvNew, vvTried
      ensures Valid() && nIdCount == old(nIdCount) && nLastGood == time
      ensures r != NoBucket
      ensures r == old(GoodCase(env, St(), Find(addr.net), addr, testBeforeEvict))
      ensures var id := old(Find(addr.net));
              r == AlreadyTried || r == Collided || r == Moved ==>
                && id in mapInfo && mapInfo[id].inTried == (r != Collided)
                && mapInfo[id].lastSuccess == mapInfo[id].lastTry == time && mapInfo[id].attempts == 0
      ensures triedCollisions == if r == Collided && |old(triedCollisions)| < SET_TRIED_COLLISION_SIZE
                                 then old(triedCollisions) + {old(Find(addr.net))} else old(triedCollisions)
      ensures old(Occupied(vvTried)).Keys <= Occupied(vvTried).Keys
      ensures Descends(old(mapInfo), mapInfo)
    {
      hide Core, CollisionsOk, Occupied;
      nLastGood := time;
      var id := Find(addr.net);
      if id == -1 {
        return Unknown;
      }
      if mapInfo[id].addr.service != addr {
        return OtherPort;
      }
      Restate(id, mapInfo[id].(lastSuccess := time, lastTry := time, attempts := 0));
      if mapInfo[id].inTried {
        return AlreadyTried;
      }
      r := Enter(id, testBeforeEvict);
    }

    /** The rest of `Good_`: a collision is remembered, or the entry enters the tried table. */
    method Enter(id: int, testBeforeEvict: bool) returns (r: GoodOutcome)
      requires Valid() && id in mapInfo && !mapInfo[id].inTried && (env.positiveClocks ==> mapInfo[id].lastSuccess > 0)
      modifies this, vvNew, vvTried
      ensures Valid() && nIdCount == old(nIdCount) && nLastGood == old(nLastGood)
      ensures r == if testBeforeEvict && old(TriedSlot(env, mapInfo[id].addr.service) in Occupied(vvTried))
                   then Collided else Moved
      ensures id in mapInfo && mapInfo[id].inTried == (r == Moved)
      ensures SameTimes(old(mapInfo[id]), mapInfo[id])
      ensures triedCollisions == if r == Collided && |old(triedCollisions)| < SET_TRIED_COLLISION_SIZE
                                 then old(triedCollisions) + {id} else old(triedCollisions)
      ensures old(Occupied(vvTried)).Keys <= Occupied(vvTried).Keys
      ensures Descends(old(mapInfo), mapInfo)
    {
      hide Core, CollisionsOk, Occupied;
      var b := FindOwnBucket(id);
      if b == -1 {
        return NoBucket;
      }
      var slot := TriedSlot(env, mapInfo[id].addr.service);
      OccupiedIs(vvTried, slot);
      if testBeforeEvict && vvTried[slot.bucket, slot.pos] != -1 {
        if |triedCollisions| < SET_TRIED_COLLISION_SIZE {
          CollideSettles(env, St(), id, triedCollisions);
          triedCollisions := triedCollisions + {id};
        }
        return Collided;
      }
      Move(id);
      return Moved;
    }

    /** `MakeTried` with what it keeps. */
    method Move(id: int)
      requires Valid() && id in mapInfo && !mapInfo[id].inTried && (env.positiveClocks ==> mapInfo[id].lastSuccess > 0)
      modifies `mapInfo, `mapAddr, `vRandom, `nNew, `nTried, vvNew, vvTried
      ensures Valid() && id in mapInfo
      ensures mapInfo[id] == old(mapInfo[id]).(refCount := 0, inTried := true, randomPos := mapInfo[id].randomPos)
      ensures Occupied(vvTried).Keys == old(Occupied(vvTried)).Keys + {TriedSlot(env, old(mapInfo[id].addr.service))}
      ensures Descends(old(mapInfo), mapInfo)
    {
      hide Core, CollisionsOk, TriedMade, Descends, Occupied;
      MoveSettles(env, St(), id, triedCollisions);
      MakeTried(id);
    }

    /** Puts an entry into the new slot its source assigns, if that slot is free or
        its occupant may be overwritten; an entry left without any slot is deleted. */
    method Place(id: int, source: NetAddr, now: int, ghost limbo: set<int>, ghost pending: int)
      requires Arrays() && Core(env, St(), limbo, pending)
      requires CollisionsOk(env, mapInfo, Occupied(vvTried), triedCollisions, nIdCount)
      requires (limbo == {} && pending == 0) || (limbo == {id} && pending == 1)
      requires id in mapInfo && id != -1 && !mapInfo[id].inTried && mapInfo[id].refCount < NEW_BUCKETS_PER_ADDRESS
      requires mapInfo[id].refCount == 0 <==> id in limbo
      requires forall s :: s in Occupied(vvNew) ==> Occupied(vvNew)[s] in mapInfo
      requires id in limbo ==> forall s :: s in Occupied(vvNew) ==> Occupied(vvNew)[s] != id
      modifies `mapInfo, `mapAddr, `vRandom, `nNew, vvNew
      ensures Valid()
      ensures id in limbo ==>
                (old(mapInfo[id].Net()) in mapAddr <==> old(Admits(env, St(), mapInfo[id].addr.service, source, now)))
      ensures id in limbo && old(mapInfo[id].Net()) in mapAddr ==>
                mapAddr[old(mapInfo[id].Net())] == id && IsReferenced(old(mapInfo), mapInfo, id)
      ensures id !in limbo ==> St() == old(St()) || IsReferenced(old(mapInfo), mapInfo, id)
    {
      hide Core, CollisionsOk, Inserted, Deleted, CanInsert, Occupied;
      var bucket := NewBucket(env, mapInfo[id].addr.service, source);
      var slot := NewSlotIn(env, mapInfo[id].addr.service, bucket);
      OccupiedIs(vvNew, slot);
      var occupant := vvNew[slot.bucket, slot.pos];
      if occupant == id {
        return;
      }
      var insert := occupant == -1;
      if !insert {
        insert := mapInfo[occupant].IsTerrible(now) || (mapInfo[occupant].refCount > 1 && mapInfo[id].refCount == 0);
      }
      if insert {
        InsertSettles(env, St(), id, slot, limbo, pending, triedCollisions);
        InsertAt(id, slot, mapInfo[id].refCount + 1);
      } else if mapInfo[id].refCount == 0 {
        DeleteSettles(env, St(), id, triedCollisions);
        Delete(id);
      }
    }

    /** Updates a known entry from a new announcement. `more` tells whether the
        entry should try to get one more new bucket. */
    method Refresh(id: int, addr: Address, timePenalty: int, now: int) returns (more: bool)
      requires Valid() && id in mapInfo
      modifies `mapInfo
      ensures Valid() && SameShape(old(mapInfo), mapInfo)
      ensures mapInfo == old(mapInfo)[id := Refreshed(old(mapInfo[id]), addr, timePenalty, now)]
      ensures more ==> !mapInfo[id].inTried && mapInfo[id].refCount < NEW_BUCKETS_PER_ADDRESS
      ensures more ==> addr.time != 0 && (mapInfo[id].addr.time == 0 || addr.time > mapInfo[id].addr.time)
    {
      hide Core, CollisionsOk, Occupied, United, Descends;
      var info := mapInfo[id];
      var currentlyOnline := now - addr.time < 24 * 60 * 60;
      var updateInterval := if currentlyOnline then 60 * 60 else 24 * 60 * 60;
      var time := info.addr.time;
      if addr.time != 0 && (time == 0 || time < addr.time - updateInterval - timePenalty) {
        time := ToUint32(Max(0, addr.time - timePenalty));
      }
      StatisticsKept(env, St(), id);
      Restate(id, info.(addr := info.addr.(time := time, services := United(info.addr.services, addr.services))));
      if addr.time == 0 || (time != 0 && addr.time <= time) {
        return false;
      }
      if info.inTried || info.refCount == NEW_BUCKETS_PER_ADDRESS {
        return false;
      }
      more := Lucky(info.refCount);
    }

    /** Each reference makes the next one twice as unlikely. */
    method Lucky(refCount: int) returns (lucky: bool)
      ensures refCount <= 0 ==> lucky
    {
      var factor := 1;
      for n := 0 to if refCount < 0 then 0 else refCount
        invariant factor >= 1 && (n == 0 ==> factor == 1)
      {
        factor := factor * 2;
      }
      var rnd :| 0 <= rnd < factor;
      return rnd == 0;
    }

    /** Creates and counts an entry that is in no bucket yet. */
    method Register(addr: Address, source: NetAddr, timePenalty: int) returns (id: int)
      modifies `nIdCount, `mapInfo, `mapAddr, `vRandom, `nNew
      ensures id == old(nIdCount)
      ensures St() == Registered(old(St()), addr, source, ToUint32(Max(0, addr.time - timePenalty)))
    {
      id := Create(addr, source);
      var a := mapInfo[id].addr;
      mapInfo := mapInfo[id := mapInfo[id].(addr := a.(time := ToUint32(Max(0, a.time - timePenalty))))];
      nNew := nNew + 1;
    }

    /** Adds an address. True exactly for a routable address not known before, even
        when it gets no slot and is forgotten at once. */
    method Add_(addr: Address, source: NetAddr, timePenalty: int, now: int) returns (isNew: bool)
      requires Valid()
      modifies this, vvNew
      ensures Valid() && triedCollisions == old(triedCollisions)
      ensures isNew <==> env.isRoutable(addr.service.net) && old(addr.service.net !in mapAddr)
      ensures nIdCount == old(nIdCount) + if isNew then 1 else 0
      ensures isNew ==> (addr.service.net in mapAddr <==> old(Admits(env, St(), addr.service, source, now)))
      ensures env.isRoutable(addr.service.net) && !isNew ==>
                var id := old(Find(addr.service.net));
                id in mapInfo && mapInfo[id].addr
                  == old(Refreshed(mapInfo[Find(addr.service.net)], addr,
                                   if addr.service.net == source then 0 else timePenalty, now)).addr
      ensures !env.isRoutable(addr.service.net) ==> St() == old(St())
      ensures isNew && addr.service.net in mapAddr ==>
                var id := mapAddr[addr.service.net];
                var time := ToUint32(Max(0, addr.time - if addr.service.net == source then 0 else timePenalty));
                && id == old(nIdCount) && id in mapInfo
                && mapInfo[id]
                   == NewInfo(addr.(time := time), source).(refCount := 1, randomPos := mapInfo[id].randomPos)
    {
      hide Core, CollisionsOk, Occupied, Admits;
      if !env.isRoutable(addr.service.net) {
        return false;
      }
      var id := Find(addr.service.net);
      var penalty := if addr.service.net == source then 0 else timePenalty;
      IndexedByAddress(env, St(), id);
      if id != -1 {
        var more := Refresh(id, addr, penalty, now);
        if more {
          Occupants(env, St(), {}, 0);
          StatisticsKept(env, St(), id);
          Place(id, source, now, {}, 0);
        }
        return false;
      }
      RegisterKeeps(env, St(), addr, source, ToUint32(Max(0, addr.time - penalty)), triedCollisions);
      id := Register(addr, source, penalty);
      Place(id, source, now, {id}, 1);
      return true;
    }

    /** The entry for exactly this address and port, or -1. */
    function FindService(addr: Service): (r: int)
      reads this
      ensures r != -1 ==> r in mapInfo && mapInfo[r].addr.service == addr
    {
      var id := Find(addr.net);
      if id != -1 && mapInfo[id].addr.service == addr then id else -1
    }

    method Attempt_(addr: Service, countFailure: bool, time: int)
      requires Valid() && (env.positiveClocks ==> time >= 0)
      modifies `mapInfo
      ensures Valid() && SameShape(old(mapInfo), mapInfo)
      ensures var id := old(FindService(addr));
              mapInfo == if id == -1 then old(mapInfo)
                         else old(mapInfo)[id := Attempted(old(mapInfo)[id], countFailure, nLastGood, time)]
    {
      hide Core, CollisionsOk, Occupied;
      var id := FindService(addr);
      if id == -1 {
        return;
      }
      StatisticsKept(env, St(), id);
      var info := mapInfo[id].(lastTry := time);
      if countFailure && info.lastCountAttempt < nLastGood {
        info := info.(lastCountAttempt := time, attempts := info.attempts + 1);
      }
      Restate(id, info);
    }

    /** Refreshes the time of an entry that is more than twenty minutes behind. */
    method Connected_(addr: Service, time: int)
      requires Valid()
      modifies `mapInfo
      ensures Valid() && SameShape(old(mapInfo), mapInfo)
      ensures var id := old(FindService(addr));
              if id != -1 && time - old(mapInfo)[id].addr.time > 20 * 60
              then var a := old(mapInfo)[id].addr;
                   mapInfo == old(mapInfo)[id := old(mapInfo)[id].(addr := a.(time := ToUint32(time)))]
              else mapInfo == old(mapInfo)
    {
      hide Core, CollisionsOk, Occupied;
      var id := FindService(addr);
      if id == -1 {
        return;
      }
      StatisticsKept(env, St(), id);
      var info := mapInfo[id];
      if time - info.addr.time > 20 * 60 {
        Restate(id, info.(addr := info.addr.(time := ToUint32(time))));
      }
    }

    method SetServices_(addr: Service, services: bv64)
      requires Valid()
      modifies `mapInfo
      ensures Valid() && SameShape(old(mapInfo), mapInfo)
      ensures var id := old(FindService(addr));
              if id == -1 then mapInfo == old(mapInfo)
              else var a := old(mapInfo)[id].addr;
                   mapInfo == old(mapInfo)[id := old(mapInfo)[id].(addr := a.(services := services))]
    {
      hide Core, CollisionsOk, Occupied;
      var id := FindService(addr);
      if id == -1 {
        return;
      }
      StatisticsKept(env, St(), id);
      Restate(id, mapInfo[id].(addr := mapInfo[id].addr.(services := services)));
    }

    /** Swaps two places of the random order. */
    method Shuffle(p1: int, p2: int)
      requires Valid() && 0 <= p1 < |vRandom| && 0 <= p2 < |vRandom|
      modifies `mapInfo, `vRandom
      ensures Valid() && OnlyMoved(old(mapInfo), mapInfo)
      ensures vRandom == old(vRandom)[p1 := old(vRandom[p2])][p2 := old(vRandom[p1])]
    {
      hide Core, CollisionsOk, Occupied;
      SwapSettles(env, St(), p1, p2, triedCollisions);
      SwapRandom(p1, p2);
    }

    /** Brings a random entry from places `n..` to place `n` of the random order. */
    method DrawAt(n: int) returns (id: int)
      requires Valid() && 0 <= n < |vRandom|
      modifies `mapInfo, `vRandom
      ensures Valid() && OnlyMoved(old(mapInfo), mapInfo) && |vRandom| == |old(vRandom)|
      ensures vRandom[..n + 1] == old(vRandom)[..n] + [id] && id in mapInfo
    {
      hide Core, CollisionsOk, Occupied, OnlyMoved;
      var rnd :| n <= rnd < |vRandom|;
      Shuffle(n, rnd);
      OrderDistinct(env, St());
      id := vRandom[n];
    }

    /** Hands out the entries among the first `seen` places of the reshuffled random
        order that are not terrible, and stops only at the limit or at the end. */
    method GetAddr_(now: int) returns (vAddr: seq<Address>, ghost ids: seq<int>, ghost seen: nat)
      requires Valid()
      modifies `mapInfo, `vRandom
      ensures Valid() && OnlyMoved(old(mapInfo), mapInfo)
      ensures seen <= |vRandom| && ids == Picked(old(mapInfo), vRandom[..seen], now)
      ensures |vAddr| == |ids| && forall k :: 0 <= k < |ids| ==>
                ids[k] in old(mapInfo) && vAddr[k] == old(mapInfo)[ids[k]].addr
      ensures |vAddr| <= Min(GETADDR_MAX_PCT * |vRandom| / 100, GETADDR_MAX)
      ensures |vAddr| < Min(GETADDR_MAX_PCT * |vRandom| / 100, GETADDR_MAX) ==> seen == |vRandom|
    {
      hide Core, CollisionsOk, Occupied, Picked;
      NonePicked(mapInfo, now);
      var nNodes := Min(GETADDR_MAX_PCT * |vRandom| / 100, GETADDR_MAX);
      vAddr, ids, seen := [], [], 0;
      ghost var infos := mapInfo;
      for n := 0 to |vRandom|
        invariant Valid() && OnlyMoved(infos, mapInfo) && |vRandom| == |old(vRandom)|
        invariant |vAddr| == |ids| <= nNodes && seen == n
        invariant ids == Picked(infos, vRandom[..n], now)
        invariant forall k :: 0 <= k < |ids| ==> ids[k] in infos && vAddr[k] == infos[ids[k]].addr
      {
        if |vAddr| >= nNodes {
          break;
        }
        ghost var before := vRandom[..n];
        var id := DrawAt(n);
        assert mapInfo[id] == infos[id].(randomPos := mapInfo[id].randomPos);
        PickedSnoc(infos, before, id, now);
        assert vRandom[..n + 1] == before + [id];
        if !mapInfo[id].IsTerrible(now) {
          vAddr, ids := vAddr + [mapInfo[id].addr], ids + [id];
        }
        seen := n + 1;
      }
    }

    /** Decides one remembered collision. The program's branch for a slot that is no
        longer occupied is never taken. */
    method ResolveOne(id: int, at: Readings) returns (erase: bool)
      requires Valid() && (env.positiveClocks ==> at.forMove > 0) && id in triedCollisions
      modifies this, vvNew, vvTried
      ensures Valid() && triedCollisions == old(triedCollisions) && nIdCount == old(nIdCount)
      ensures old(Occupied(vvTried)).Keys <= Occupied(vvTried).Keys
      ensures erase <==> old(Resolved(env, St(), id, at)) != Undecided
      ensures if old(Resolved(env, St(), id, at)) == NewGoesIn then id in mapInfo && mapInfo[id].inTried
              else St() == old(St())
    {
      hide Core, CollisionsOk, Occupied, Descends;
      erase := false;
      if id !in mapInfo {
        erase := true;
        return;
      }
      CollisionOccupied(env, St(), triedCollisions, id);
      IndexedByAddress(env, St(), id);
      var service := mapInfo[id].addr.service;
      var slot := TriedSlot(env, service);
      OccupiedIs(vvTried, slot);
      if !env.isValid(service.net) {
        erase := true;
      } else if vvTried[slot.bucket, slot.pos] != -1 {
        var older := mapInfo[vvTried[slot.bucket, slot.pos]];
        if at.forSuccess - older.lastSuccess < REPLACEMENT_HOURS * 60 * 60 {
          erase := true;
        } else if at.forTry - older.lastTry < REPLACEMENT_HOURS * 60 * 60 {
          if at.forWait - older.lastTry > 60 {
            var _ := Good_(service, false, at.forMove);
            erase := true;
          }
        } else if at.forTest - mapInfo[id].lastSuccess > TEST_WINDOW {
          var _ := Good_(service, false, at.forMove);
          erase := true;
        }
      } else {
        assert false;
      }
    }

    /** Resolves the remembered collisions one by one, each in the state that it finds; exactly those that
        cannot be decided yet are remembered further. */
    method ResolveCollisions_(clock: Clock) returns (ghost visits: seq<Visit>)
      requires Valid() && (env.positiveClocks ==> forall id :: clock(id).forMove > 0)
      modifies this, vvNew, vvTried
      ensures Valid() && nIdCount == old(nIdCount)
      ensures old(Occupied(vvTried)).Keys <= Occupied(vvTried).Keys
      ensures Chained(visits, old(St()), St()) && Visited(visits) == old(triedCollisions)
      ensures AllDecided(env, visits, clock, triedCollisions)
      ensures triedCollisions <= old(triedCollisions)
    {
      hide Core, CollisionsOk, Occupied, Descends, Resolved, Chained, Visited, Decided, AllDecided;
      var rest := triedCollisions;
      visits := [];
      NoVisits(env, clock, triedCollisions, St());
      while rest != {}
        invariant Valid() && rest <= triedCollisions <= old(triedCollisions) && nIdCount == old(nIdCount)
        invariant old(Occupied(vvTried)).Keys <= Occupied(vvTried).Keys
        invariant Chained(visits, old(St()), St()) && Visited(visits) == old(triedCollisions) - rest
        invariant AllDecided(env, visits, clock, triedCollisions)
        decreases |rest|
      {
        ghost var _ := Member(rest);
        var id :| id in rest;
        ghost var st := St();
        var erase := ResolveOne(id, clock(id));
        ghost var visit := Visit(id, st, St());
        DecidedOne(env, visit, clock(id));
        VisitNext(visits, old(St()), visit);
        AlsoDecided(env, visits, visit, clock, triedCollisions);
        if erase {
          DropSettles(env, St(), triedCollisions, id);
          triedCollisions := triedCollisions - {id};
        }
        visits := visits + [visit];
        rest := rest - {id};
      }
      assert old(triedCollisions) - rest == old(triedCollisions);
    }

    /** The tried entry that a random remembered collision would evict. */
    method SelectTriedCollision_() returns (r: Option<AddrInfo>)
      requires Valid()
      modifies `triedCollisions
      ensures Valid() && triedCollisions <= old(triedCollisions)
      ensures r.Some? ==> r.value.inTried && exists id :: id in triedCollisions && IsVictim(env, St(), id, r.value)
      ensures r.None? ==> old(triedCollisions) == {} || triedCollisions < old(triedCollisions)
    {
      hide Core, CollisionsOk, Occupied;
      if triedCollisions == {} {
        return None;
      }
      ghost var _ := Member(triedCollisions);
      var id :| id in triedCollisions;
      if id !in mapInfo {
        DropSettles(env, St(), triedCollisions, id);
        triedCollisions := triedCollisions - {id};
        return None;
      }
      CollisionOccupied(env, St(), triedCollisions, id);
      var slot := TriedSlot(env, mapInfo[id].addr.service);
      OccupiedIs(vvTried, slot);
      var older := vvTried[slot.bucket, slot.pos];
      assert older != -1 && older in mapInfo;
      return Some(mapInfo[older]);
    }
  }

  // ----- The consistency check -------------------------------------------------------

  /** A lookup in the address index leaves a missing address behind, with id 0. */
  function LookedUp(addrs: map<NetAddr, int>, a: NetAddr): map<NetAddr, int> {
    if a in addrs then addrs else addrs[a := 0]
  }

  /** The index once all entries but `todo` have passed: only the address of entry 0 can have been missing. */
  function AllLookedUp(infos: Infos, addrs: map<NetAddr, int>, todo: set<int>): map<NetAddr, int> {
    if 0 in infos && 0 !in todo then LookedUp(addrs, infos[0].Net()) else addrs
  }

  /** These errors are found before the address is looked up. */
  predicate BeforeLookup(err: int) {
    -4 <= err <= -1
  }

  /** The index when an entry failed, before or after entry 0 was looked at. */
  ghost predicate FailedAt(infos: Infos, addrs0: map<NetAddr, int>, addrs: map<NetAddr, int>, order: seq<int>,
                           n: int, err: int) {
    && n in infos && err == EntryError(infos, addrs0, order, n)
    && exists todo :: var before := AllLookedUp(infos, addrs0, todo);
                      addrs == if BeforeLookup(err) then before else LookedUp(before, infos[n].Net())
  }

  /** The errors of single entries. */
  predicate OfEntry(err: int) {
    err in {-1, -2, -3, -4, -5, -6, -8, -14}
  }

  /** What the lookups leave in the index: nothing if no entry was looked at, and otherwise as far as
      the loop over the entries came. */
  ghost predicate Aftermath(infos: Infos, addrs0: map<NetAddr, int>, addrs: map<NetAddr, int>, order: seq<int>,
                            err: int) {
    if err == -7 then addrs == addrs0
    else if OfEntry(err) then exists n :: FailedAt(infos, addrs0, addrs, order, n, err)
    else addrs == AllLookedUp(infos, addrs0, {})
  }

  lemma LookupPasses(infos: Infos, addrs0: map<NetAddr, int>, order: seq<int>, todo: set<int>, n: int)
    requires n in infos && n in todo
    ensures var addrs := AllLookedUp(infos, addrs0, todo);
            && EntryError(infos, addrs, order, n) == EntryError(infos, addrs0, order, n)
            && (EntryError(infos, addrs0, order, n) == 0 || OfEntry(EntryError(infos, addrs0, order, n)))
            && (EntryError(infos, addrs0, order, n) == 0 ==>
                  LookedUp(addrs, infos[n].Net()) == AllLookedUp(infos, addrs0, todo - {n}))
  {
  }

  /** First part of `Check_`: every entry on its own, collecting the ids. */
  method CheckEntries(infos: Infos, addrs0: map<NetAddr, int>, order: seq<int>)
    returns (err: int, setTried: set<int>, mapNew: map<int, int>, addrs: map<NetAddr, int>)
    ensures err == 0 <==> forall n :: n in infos ==> EntryError(infos, addrs0, order, n) == 0
    ensures err == 0 ==> addrs == AllLookedUp(infos, addrs0, {})
    ensures err != 0 ==> OfEntry(err) && exists n :: FailedAt(infos, addrs0, addrs, order, n, err)
    ensures err == 0 ==> setTried == TriedIds(infos) && mapNew.Keys == NewIds(infos, {})
    ensures err == 0 ==> forall n :: n in mapNew ==> n in infos && mapNew[n] == infos[n].refCount
  {
    hide EntryError, LookedUp, AllLookedUp, TriedIds, NewIds, FailedAt, Collected;
    err, setTried, mapNew, addrs := 0, {}, map[], addrs0;
    var todo := infos.Keys;
    NoneLookedUp(infos, addrs0);
    NoneCollected(infos);
    while todo != {}
      invariant todo <= infos.Keys && err == 0 && addrs == AllLookedUp(infos, addrs0, todo)
      invariant Collected(infos, todo, setTried, mapNew)
      invariant forall n :: n in infos && n !in todo ==> EntryError(infos, addrs0, order, n) == 0
      decreases |todo|
    {
      ghost var _ := Member(todo);
      var n :| n in todo;
      LookupPasses(infos, addrs0, order, todo, n);
      err := EntryError(infos, addrs, order, n);
      if !BeforeLookup(err) {
        addrs := LookedUp(addrs, infos[n].Net());
      }
      if err != 0 {
        FailsAt(infos, addrs0, order, todo, n);
        return;
      }
      OneCollected(infos, todo, setTried, mapNew, n);
      if infos[n].inTried {
        setTried := setTried + {n};
      } else {
        mapNew := mapNew[n := infos[n].refCount];
      }
      todo := todo - {n};
    }
    AllCollected(infos, setTried, mapNew);
  }

  lemma FailsAt(infos: Infos, addrs0: map<NetAddr, int>, order: seq<int>, todo: set<int>, n: int)
    requires n in infos
    ensures var before, err := AllLookedUp(infos, addrs0, todo), EntryError(infos, addrs0, order, n);
            var addrs := if BeforeLookup(err) then before else LookedUp(before, infos[n].Net());
            FailedAt(infos, addrs0, addrs, order, n, err)
  {
    hide EntryError, AllLookedUp, LookedUp;
  }

  /** The ids collected from all entries but `todo`. */
  ghost predicate Collected(infos: Infos, todo: set<int>, setTried: set<int>, mapNew: map<int, int>) {
    && (forall n :: n in setTried <==> n in infos && n !in todo && infos[n].inTried)
    && (forall n :: n in mapNew <==> n in infos && n !in todo && !infos[n].inTried)
    && (forall n :: n in mapNew ==> mapNew[n] == infos[n].refCount)
  }

  lemma NoneCollected(infos: Infos)
    ensures Collected(infos, infos.Keys, {}, map[])
  {
  }

  lemma OneCollected(infos: Infos, todo: set<int>, setTried: set<int>, mapNew: map<int, int>, n: int)
    requires Collected(infos, todo, setTried, mapNew) && n in infos && n in todo
    ensures if infos[n].inTried then Collected(infos, todo - {n}, setTried + {n}, mapNew)
            else Collected(infos, todo - {n}, setTried, mapNew[n := infos[n].refCount])
  {
  }

  lemma AllCollected(infos: Infos, setTried: set<int>, mapNew: map<int, int>)
    requires Collected(infos, {}, setTried, mapNew)
    ensures setTried == TriedIds(infos) && mapNew.Keys == NewIds(infos, {})
    ensures forall n :: n in mapNew ==> n in infos && mapNew[n] == infos[n].refCount
  {
    assert forall n :: n in setTried <==> n in TriedIds(infos);
    assert forall n :: n in mapNew.Keys <==> n in NewIds(infos, {});
  }

  lemma NoneLookedUp(infos: Infos, addrs: map<NetAddr, int>)
    ensures AllLookedUp(infos, addrs, infos.Keys) == addrs
  {
  }

  /** Where every address is indexed, the lookups change nothing. */
  lemma LookupsKeep(infos: Infos, addrs0: map<NetAddr, int>, addrs: map<NetAddr, int>, order: seq<int>, err: int)
    requires forall m :: m in infos ==> infos[m].Net() in addrs0
    requires Aftermath(infos, addrs0, addrs, order, err)
    ensures addrs == addrs0
  {
    hide EntryError;
  }

  /** Second part of `Check_`: the tried table against the collected ids. */
  method CheckTried(env: Env, infos: Infos, a: array2<int>, ids: set<int>, ghost counts: map<int, int>)
    returns (err: int, setTried: set<int>)
    requires a.Length1 == BUCKET_SIZE && ids <= infos.Keys
    requires counts.Keys == ids && forall n :: n in counts ==> counts[n] == 1
    ensures !OfEntry(err) && err != -7
    ensures err == 0 && setTried == {} <==>
              CountsLeft(counts, Occupied(a), 0, 0) && TriedPlaced(env, infos, Occupied(a))
  {
    hide CountsLeft, Occupied, TriedSlot, TriedSeen, TriedPlaced, CountedOff;
    ghost var t := Occupied(a);
    ghost var counts' := counts;
    OccupiedInRange(a);
    NoneSeen(env, infos, t);
    err, setTried := 0, ids;
    for n := 0 to a.Length0
      invariant setTried <= infos.Keys && counts'.Keys == setTried && forall n :: n in counts' ==> counts'[n] == 1
      invariant CountsLeft(counts, t, 0, 0) <==> CountsLeft(counts', t, n, 0)
      invariant TriedSeen(env, infos, t, n, 0)
    {
      for i := 0 to BUCKET_SIZE
        invariant setTried <= infos.Keys && counts'.Keys == setTried && forall n :: n in counts' ==> counts'[n] == 1
        invariant CountsLeft(counts, t, 0, 0) <==> CountsLeft(counts', t, n, i)
        invariant TriedSeen(env, infos, t, n, i)
      {
        OccupiedIs(a, Slot(n, i));
        CountStep(counts', t, n, i);
        TriedSeenNext(env, infos, t, n, i);
        var id := a[n, i];
        if id != -1 {
          if id !in setTried {
            return -11, setTried;
          }
          TriedSlotParts(env, infos[id].addr.service, n, i);
          if TriedBucket(env, infos[id].addr.service) != n {
            return -17, setTried;
          }
          if BucketPosition(env, infos[id].addr.service, false, n) != i {
            return -18, setTried;
          }
          OneCountedOff(counts', id);
          counts' := CountedOff(counts', id);
          setTried := setTried - {id};
        }
      }
      CountWrap(counts', t, n);
      SeenWraps(env, infos, t, n);
    }
    CountEnds(counts', t, a.Length0);
    AllSeen(env, infos, t, a.Length0);
    assert setTried == {} <==> counts' == map[];
  }

  lemma OneCountedOff(counts: map<int, int>, id: int)
    requires id in counts && forall n :: n in counts ==> counts[n] == 1
    ensures CountedOff(counts, id) == counts - {id}
  {
  }

  /** Third part of `Check_`: the new table against the collected reference counts. */
  method CheckNew(env: Env, infos: Infos, a: array2<int>, counts: map<int, int>)
    returns (err: int, mapNew: map<int, int>)
    requires a.Length1 == BUCKET_SIZE && counts.Keys <= infos.Keys
    ensures !OfEntry(err) && err != -7
    ensures err == 0 && mapNew == map[] <==> CountsLeft(counts, Occupied(a), 0, 0) && NewPlaced(env, infos, Occupied(a))
  {
    hide CountsLeft, Occupied, NewSlotIn, NewSeen, NewPlaced;
    ghost var t := Occupied(a);
    OccupiedInRange(a);
    NoneSeen(env, infos, t);
    err, mapNew := 0, counts;
    for n := 0 to a.Length0
      invariant mapNew.Keys <= infos.Keys
      invariant CountsLeft(counts, t, 0, 0) <==> CountsLeft(mapNew, t, n, 0)
      invariant NewSeen(env, infos, t, n, 0)
    {
      for i := 0 to BUCKET_SIZE
        invariant mapNew.Keys <= infos.Keys
        invariant CountsLeft(counts, t, 0, 0) <==> CountsLeft(mapNew, t, n, i)
        invariant NewSeen(env, infos, t, n, i)
      {
        OccupiedIs(a, Slot(n, i));
        CountStep(mapNew, t, n, i);
        NewSeenNext(env, infos, t, n, i);
        var id := a[n, i];
        if id != -1 {
          if id !in mapNew {
            return -12, mapNew;
          }
          NewSlotParts(env, infos[id].addr.service, n, i);
          if BucketPosition(env, infos[id].addr.service, true, n) != i {
            return -19, mapNew;
          }
          mapNew := if mapNew[id] - 1 == 0 then mapNew - {id} else mapNew[id := mapNew[id] - 1];
        }
      }
      CountWrap(mapNew, t, n);
      SeenWraps(env, infos, t, n);
    }
    CountEnds(mapNew, t, a.Length0);
    AllSeen(env, infos, t, a.Length0);
  }

  /** The debug check of the program: 0 exactly if all its tests pass. It only ever changes the address
      index, by the lookups of missing addresses. */
  method Check_(man: AddrMan) returns (err: int)
    requires man.Arrays()
    modifies man`mapAddr
    ensures err == 0 <==> old(Passes(man.env, man.St()))
    ensures man.env.key != 0 && man.env.positiveClocks ==>
              (old(Core(man.env, man.St(), {}, 0)) <==> err == 0 && old(Untested(man.St())))
    ensures Aftermath(man.mapInfo, old(man.mapAddr), man.mapAddr, man.vRandom, err)
    ensures old(Core(man.env, man.St(), {}, 0)) ==> man.mapAddr == old(man.mapAddr)
  {
    hide Core, EntryError, Occupied, Passes, Untested, Aftermath;
    ghost var st := man.St();
    OccupiedInRange(man.vvTried);
    OccupiedInRange(man.vvNew);
    err := RunTests(man);
    if man.env.key != 0 && man.env.positiveClocks {
      PassesExactly(man.env, st);
    }
    if Core(man.env, st, {}, 0) {
      AllIndexed(man.env, st);
      LookupsKeep(st.infos, st.addrs, man.mapAddr, st.order, err);
    }
  }

  lemma AllIndexed(env: Env, st: State)
    requires Core(env, st, {}, 0)
    ensures forall m :: m in st.infos ==> st.infos[m].Net() in st.addrs
  {
  }

  method RunTests(man: AddrMan) returns (err: int)
    requires man.Arrays()
    modifies man`mapAddr
    ensures err == 0 <==> old(Passes(man.env, man.St()))
    ensures Aftermath(man.mapInfo, old(man.mapAddr), man.mapAddr, man.vRandom, err)
  {
    hide EntryError, Occupied, TriedPlaced, NewPlaced, TriedCounted, NewCounted, CountsLeft, AllLookedUp, FailedAt;
    ghost var st := man.St();
    OccupiedInRange(man.vvTried);
    OccupiedInRange(man.vvNew);
    if |man.vRandom| != man.nTried + man.nNew {
      return -7;
    }
    var e, setTried, mapNew, addrs := CheckEntries(man.mapInfo, man.mapAddr, man.vRandom);
    man.mapAddr := addrs;
    if e != 0 {
      return e;
    }
    if |setTried| != man.nTried {
      return -9;
    }
    assert |mapNew| == |mapNew.Keys|;
    if |mapNew| != man.nNew {
      return -10;
    }
    ghost var counts := map[] + map n | n in setTried :: 1;
    TriedCountsAre(st.infos, st.tried, counts);
    NewCountsAre(st.infos, st.table, mapNew);
    err := ScanTables(man, setTried, counts, mapNew);
  }

  /** The scans of both tables and what is left afterwards. */
  method ScanTables(man: AddrMan, ids: set<int>, ghost counts: map<int, int>, mapNew0: map<int, int>) returns (err: int)
    requires man.Arrays() && ids <= man.mapInfo.Keys && mapNew0.Keys <= man.mapInfo.Keys
    requires counts.Keys == ids && forall n :: n in counts ==> counts[n] == 1
    ensures !OfEntry(err) && err != -7
    ensures err == 0 <==>
              && man.env.key != 0
              && CountsLeft(counts, Occupied(man.vvTried), 0, 0)
              && TriedPlaced(man.env, man.mapInfo, Occupied(man.vvTried))
              && CountsLeft(mapNew0, Occupied(man.vvNew), 0, 0) && NewPlaced(man.env, man.mapInfo, Occupied(man.vvNew))
  {
    hide Occupied, TriedPlaced, NewPlaced, CountsLeft;
    var e, setTried := CheckTried(man.env, man.mapInfo, man.vvTried, ids, counts);
    if e != 0 {
      return e;
    }
    var mapNew;
    e, mapNew := CheckNew(man.env, man.mapInfo, man.vvNew, mapNew0);
    if e != 0 {
      return e;
    }
    if |setTried| != 0 {
      return -13;
    }
    if |mapNew| != 0 {
      return -15;
    }
    if man.env.key == 0 {
      return -16;
    }
    return 0;
  }

  // ----- Whole runs -----------------------------------------------------------------

  datatype Op =
    | Add(addr: Address, source: NetAddr, timePenalty: int, now: int)
    | Good(service: Service, testBeforeEvict: bool, now: int)
    | Attempt(service: Service, countFailure: bool, now: int)
    | Connected(service: Service, now: int)
    | SetServices(service: Service, services: bv64)
    | GetAddr(now: int)
    | ResolveCollisions(clock: Clock)
    | SelectTriedCollision

  /** The clocks are as announced where a success or an attempt is recorded. */
  ghost predicate Legal(env: Env, op: Op) {
    env.positiveClocks ==>
      && (op.Good? ==> op.now > 0) && (op.Attempt? ==> op.now >= 0)
      && (op.ResolveCollisions? ==> forall id :: op.clock(id).forMove > 0)
  }

  method Perform(man: AddrMan, op: Op)
    requires man.Valid() && Legal(man.env, op)
    modifies man, man.vvNew, man.vvTried
    ensures man.Valid() && old(Occupied(man.vvTried)).Keys <= Occupied(man.vvTried).Keys
  {
    hide Core, CollisionsOk, Occupied, Descends, Admits, Picked;
    if op.Add? {
      var _ := man.Add_(op.addr, op.source, op.timePenalty, op.now);
    } else if op.Good? {
      var _ := man.Good_(op.service, op.testBeforeEvict, op.now);
    } else if op.Attempt? {
      man.Attempt_(op.service, op.countFailure, op.now);
    } else if op.Connected? {
      man.Connected_(op.service, op.now);
    } else if op.SetServices? {
      man.SetServices_(op.service, op.services);
    } else if op.GetAddr? {
      var _, _, _ := man.GetAddr_(op.now);
    } else if op.ResolveCollisions? {
      var _ := man.ResolveCollisions_(op.clock);
    } else {
      var _ := man.SelectTriedCollision_();
    }
  }

  /** After every run from a fresh manager all indexes agree, every remembered
      collision waits for an occupied slot, and `Check_` finds nothing. */
  method Run(env: Env, ops: seq<Op>) returns (man: AddrMan, err: int)
    requires env.key != 0 && forall op :: op in ops ==> Legal(env, op)
    ensures man.Valid() && (env.positiveClocks ==> err == 0)
  {
    man := new AddrMan(env);
    for i := 0 to |ops|
      invariant man.Valid() && fresh(man) && fresh(man.vvNew) && fresh(man.vvTried) && man.env == env
    {
      Perform(man, ops[i]);
    }
    err := Check_(man);
  }
}
