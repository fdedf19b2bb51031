/** Values, bucket functions and the consistency conditions of the address manager,
    stated on plain values so that each condition can be followed step by step. */
module AddrTables {
  import opened Bounds
  import opened Sets

  // ----- Constants -----------------------------------------------------------

  const TRIED_BUCKET_COUNT := 256
  const NEW_BUCKET_COUNT := 1024
  const BUCKET_SIZE := 64
  const TRIED_BUCKETS_PER_GROUP := 8
  const NEW_BUCKETS_PER_SOURCE_GROUP := 64
  const NEW_BUCKETS_PER_ADDRESS := 8
  const HORIZON_DAYS := 30
  const RETRIES := 3
  const MAX_FAILURES := 10
  const MIN_FAIL_DAYS := 7
  const REPLACEMENT_HOURS := 4
  const GETADDR_MAX_PCT := 23
  const GETADDR_MAX := 2500
  const SET_TRIED_COLLISION_SIZE := 10
  const TEST_WINDOW := 40 * 60

  // ----- Addresses -------------------------------------------------------------

  datatype NetAddr = NetAddr(ip: nat)

  datatype Service = Service(net: NetAddr, port: nat)

  datatype Address = Address(service: Service, services: bv64, time: int)

  datatype AddrInfo = AddrInfo(
    addr: Address, source: NetAddr,
    lastTry: int, lastCountAttempt: int, lastSuccess: int, attempts: int,
    refCount: int, inTried: bool, randomPos: int)
  {
    function Net(): NetAddr { addr.service.net }

    predicate IsTerrible(now: int) {
      if lastTry != 0 && lastTry >= now - 60 then false
      else
        || addr.time > now + 10 * 60
        || addr.time == 0
        || now - addr.time > HORIZON_DAYS * 24 * 60 * 60
        || (lastSuccess == 0 && attempts >= RETRIES)
        || (now - lastSuccess > MIN_FAIL_DAYS * 24 * 60 * 60 && attempts >= MAX_FAILURES)
    }
  }

  /** Conversion to the unsigned 32-bit field that holds an address's time. */
  function ToUint32(x: int): int { x % 0x1_0000_0000 }

  /** A default-constructed entry around an address. */
  function NewInfo(addr: Address, source: NetAddr): AddrInfo {
    AddrInfo(addr, source, 0, 0, 0, 0, 0, false, -1)
  }

  // ----- Buckets: cheap hashes are an unknown function of the hashed fields -----

  datatype HashInput =
    | TriedByKey(key: nat, service: Service)
    | TriedByGroup(key: nat, group: seq<nat>, h: nat)
    | NewByGroups(key: nat, group: seq<nat>, sourceGroup: seq<nat>)
    | NewBySource(key: nat, sourceGroup: seq<nat>, h: nat)
    | Position(key: nat, kind: char, bucket: int, service: Service)

  /** What the manager takes from outside: its secret key, the hash function and
      the classification of network addresses. */
  datatype Env = Env(
    key: nat,
    cheapHash: HashInput -> nat,
    groupOf: NetAddr -> seq<nat>,
    isRoutable: NetAddr -> bool,
    isValid: NetAddr -> bool,
    positiveClocks: bool)     // whether all times that attempts and successes are recorded at are positive

  datatype Slot = Slot(bucket: int, pos: int)

  function TriedBucket(env: Env, s: Service): (b: int)
    ensures 0 <= b < TRIED_BUCKET_COUNT
  {
    var h := env.cheapHash(TriedByKey(env.key, s));
    env.cheapHash(TriedByGroup(env.key, env.groupOf(s.net), h % TRIED_BUCKETS_PER_GROUP)) % TRIED_BUCKET_COUNT
  }

  function NewBucket(env: Env, s: Service, source: NetAddr): (b: int)
    ensures 0 <= b < NEW_BUCKET_COUNT
  {
    var h := env.cheapHash(NewByGroups(env.key, env.groupOf(s.net), env.groupOf(source)));
    env.cheapHash(NewBySource(env.key, env.groupOf(source), h % NEW_BUCKETS_PER_SOURCE_GROUP)) % NEW_BUCKET_COUNT
  }

  function BucketPosition(env: Env, s: Service, isNew: bool, bucket: int): (p: int)
    ensures 0 <= p < BUCKET_SIZE
  {
    env.cheapHash(Position(env.key, if isNew then 'N' else 'K', bucket, s)) % BUCKET_SIZE
  }

  function TriedSlot(env: Env, s: Service): Slot {
    var b := TriedBucket(env, s);
    Slot(b, BucketPosition(env, s, false, b))
  }

  function NewSlotIn(env: Env, s: Service, bucket: int): Slot {
    Slot(bucket, BucketPosition(env, s, true, bucket))
  }

  // ----- The consistency conditions -------------------------------------------

  type Infos = map<int, AddrInfo>

  /** The occupied slots of a bucket table. */
  type Table = map<Slot, int>

  ghost function SlotsOf(table: Table, id: int): set<Slot> {
    set s | s in table && table[s] == id
  }

  lemma NoSlots(table: Table, id: int)
    requires |SlotsOf(table, id)| == 0
    ensures forall s :: s in table ==> table[s] != id
  {
    forall s | s in table
      ensures table[s] != id
    {
      assert s !in SlotsOf(table, id);
    }
  }

  /** mapAddr and mapInfo are inverse. */
  ghost predicate AddrOk(infos: Infos, addrs: map<NetAddr, int>) {
    && (forall n :: n in infos ==> infos[n].Net() in addrs && addrs[infos[n].Net()] == n)
    && (forall a :: a in addrs ==> addrs[a] in infos && infos[addrs[a]].Net() == a)
  }

  /** vRandom and the stored positions are inverse. */
  ghost predicate RandomOk(infos: Infos, order: seq<int>) {
    && |order| == |infos|
    && (forall n {:trigger infos[n].randomPos} :: n in infos ==>
          0 <= infos[n].randomPos < |order| && order[infos[n].randomPos] == n)
    && (forall i :: 0 <= i < |order| ==> order[i] in infos && infos[order[i]].randomPos == i)
  }

  /** The tried table holds exactly the tried entries, each in its own slot. */
  ghost predicate TriedOk(env: Env, infos: Infos, tried: Table) {
    && (forall s :: s in tried ==>
          tried[s] in infos && infos[tried[s]].inTried && TriedSlot(env, infos[tried[s]].addr.service) == s)
    && (forall n :: n in infos && infos[n].inTried ==>
          && infos[n].refCount == 0
          && TriedSlot(env, infos[n].addr.service) in tried
          && tried[TriedSlot(env, infos[n].addr.service)] == n)
  }

  /** Every new slot holds an entry at its own position, and each reference count
      is the number of slots. Entries in `limbo` are momentarily in no table. */
  ghost predicate NewOk(env: Env, infos: Infos, table: Table, limbo: set<int>) {
    && (forall s :: s in table ==>
          && 0 <= s.bucket < NEW_BUCKET_COUNT
          && table[s] in infos && !infos[table[s]].inTried
          && NewSlotIn(env, infos[table[s]].addr.service, s.bucket) == s)
    && (forall n :: n in infos && !infos[n].inTried ==>
          && infos[n].refCount == |SlotsOf(table, n)| <= NEW_BUCKETS_PER_ADDRESS
          && (n in limbo <==> infos[n].refCount == 0))
    && (forall n :: n in limbo ==> n in infos && !infos[n].inTried)
  }

  ghost function TriedIds(infos: Infos): set<int> {
    set n | n in infos && infos[n].inTried
  }

  ghost function NewIds(infos: Infos, limbo: set<int>): set<int> {
    set n | n in infos && !infos[n].inTried && n !in limbo
  }

  /** The counters are exact, up to `pending` entries that nNew still or already counts. */
  ghost predicate CountOk(infos: Infos, nTried: int, nNew: int, limbo: set<int>, pending: int) {
    && nTried == |TriedIds(infos)|
    && nNew == |NewIds(infos, limbo)| + pending
  }

  /** With positive clocks no recorded time is negative, and tried entries have succeeded at some time. */
  ghost predicate TimesFit(env: Env, info: AddrInfo) {
    env.positiveClocks ==> info.lastTry >= 0 && info.lastSuccess >= 0 && (info.inTried ==> info.lastSuccess > 0)
  }

  ghost predicate TimesOk(env: Env, infos: Infos) {
    forall n :: n in infos ==> TimesFit(env, infos[n])
  }

  ghost predicate IdsOk(infos: Infos, idCount: int) {
    0 <= idCount && forall n :: n in infos ==> 0 <= n < idCount
  }

  /** Remembered collisions are few, and the slot they wait for is occupied. */
  ghost predicate CollisionsOk(env: Env, infos: Infos, tried: Table, collisions: set<int>, idCount: int) {
    && |collisions| <= SET_TRIED_COLLISION_SIZE
    && (forall n :: n in collisions ==> n < idCount)
    && (forall n :: n in collisions && n in infos ==> TriedSlot(env, infos[n].addr.service) in tried)
  }

  // ----- Steps that touch only statistics or positions -------------------------

  /** Same entries, same table membership; statistics and positions may differ. */
  ghost predicate SameShape(infos: Infos, infos': Infos) {
    && infos.Keys == infos'.Keys
    && forall n :: n in infos ==>
         && infos'[n].addr.service == infos[n].addr.service
         && infos'[n].refCount == infos[n].refCount
         && infos'[n].inTried == infos[n].inTried
  }

  /** Only positions in the random order differ. */
  ghost predicate OnlyMoved(infos: Infos, infos': Infos) {
    && infos.Keys == infos'.Keys
    && forall n :: n in infos ==> infos'[n] == infos[n].(randomPos := infos'[n].randomPos)
  }

  lemma MovedKeeps(env: Env, infos: Infos, infos': Infos, addrs: map<NetAddr, int>, tried: Table, table: Table,
                   limbo: set<int>)
    requires OnlyMoved(infos, infos') && AddrOk(infos, addrs) && TriedOk(env, infos, tried)
    requires NewOk(env, infos, table, limbo) && TimesOk(env, infos)
    ensures AddrOk(infos', addrs) && TriedOk(env, infos', tried) && NewOk(env, infos', table, limbo)
    ensures TimesOk(env, infos')
    ensures TriedIds(infos') == TriedIds(infos) && NewIds(infos', limbo) == NewIds(infos, limbo)
  {
    ShapeKeepsAddrs(infos, infos', addrs);
    ShapeKeepsTried(env, infos, infos', tried);
    ShapeKeepsNew(env, infos, infos', table, limbo);
    ShapeKeepsCounts(infos, infos', limbo);
    assert forall n :: n in infos' ==> n in infos;
  }

  lemma ShapeKeepsAddrs(infos: Infos, infos': Infos, addrs: map<NetAddr, int>)
    requires SameShape(infos, infos') && AddrOk(infos, addrs)
    ensures AddrOk(infos', addrs)
  {
    forall n | n in infos'
      ensures infos'[n].Net() in addrs && addrs[infos'[n].Net()] == n
    {
      assert n in infos;
    }
    forall a | a in addrs
      ensures addrs[a] in infos' && infos'[addrs[a]].Net() == a
    {
      assert addrs[a] in infos;
    }
  }

  lemma ShapeKeepsTried(env: Env, infos: Infos, infos': Infos, tried: Table)
    requires SameShape(infos, infos') && TriedOk(env, infos, tried)
    ensures TriedOk(env, infos', tried)
  {
    assert forall n :: n in infos' <==> n in infos;
    forall s | s in tried
      ensures tried[s] in infos' && infos'[tried[s]].inTried
      ensures TriedSlot(env, infos'[tried[s]].addr.service) == s
    {
      var n := tried[s];
      assert n in infos && infos'[n].inTried == infos[n].inTried;
    }
  }

  lemma ShapeKeepsNew(env: Env, infos: Infos, infos': Infos, table: Table, limbo: set<int>)
    requires SameShape(infos, infos') && NewOk(env, infos, table, limbo)
    ensures NewOk(env, infos', table, limbo)
  {
    assert forall n :: n in infos' <==> n in infos;
    forall s | s in table
      ensures table[s] in infos' && !infos'[table[s]].inTried
      ensures NewSlotIn(env, infos'[table[s]].addr.service, s.bucket) == s
    {
      var n := table[s];
      assert n in infos && infos'[n].inTried == infos[n].inTried;
    }
  }

  lemma ShapeKeepsCounts(infos: Infos, infos': Infos, limbo: set<int>)
    requires SameShape(infos, infos')
    ensures TriedIds(infos') == TriedIds(infos) && NewIds(infos', limbo) == NewIds(infos, limbo)
  {
    assert forall n :: n in infos' ==> n in infos && infos'[n].inTried == infos[n].inTried;
    assert forall n :: n in infos ==> n in infos' && infos'[n].inTried == infos[n].inTried;
  }

  // ----- Steps on the new table ---------------------------------------------------

  /** Taking an entry out of one of its new slots. */
  lemma DropSlot(env: Env, infos: Infos, table: Table, limbo: set<int>, s: Slot, infos': Infos)
    requires NewOk(env, infos, table, limbo) && s in table
    requires var id := table[s]; infos' == infos[id := infos[id].(refCount := infos[id].refCount - 1)]
    ensures infos[table[s]].refCount >= 1
    ensures NewOk(env, infos', table - {s},
                  if infos'[table[s]].refCount == 0 then limbo + {table[s]} else limbo)
  {
    SlotsAfterDrop(table, s);
  }

  lemma SlotsAfterDrop(table: Table, s: Slot)
    requires s in table
    ensures |SlotsOf(table - {s}, table[s])| == |SlotsOf(table, table[s])| - 1
    ensures forall n {:trigger SlotsOf(table - {s}, n)} :: n != table[s] ==>
              SlotsOf(table - {s}, n) == SlotsOf(table, n)
  {
    var id := table[s];
    assert SlotsOf(table - {s}, id) == SlotsOf(table, id) - {s} && s in SlotsOf(table, id);
  }

  /** Putting an entry into a free new slot at its own position. */
  lemma FillSlot(env: Env, infos: Infos, table: Table, limbo: set<int>, s: Slot, id: int, infos': Infos)
    requires NewOk(env, infos, table, limbo) && s !in table && id in infos && !infos[id].inTried
    requires 0 <= s.bucket < NEW_BUCKET_COUNT && NewSlotIn(env, infos[id].addr.service, s.bucket) == s
    requires infos[id].refCount < NEW_BUCKETS_PER_ADDRESS
    requires infos' == infos[id := infos[id].(refCount := infos[id].refCount + 1)]
    ensures NewOk(env, infos', table[s := id], limbo - {id})
  {
    SlotsAfterFill(table, s, id);
  }

  lemma SlotsAfterFill(table: Table, s: Slot, id: int)
    requires s !in table
    ensures |SlotsOf(table[s := id], id)| == |SlotsOf(table, id)| + 1
    ensures forall n {:trigger SlotsOf(table[s := id], n)} :: n != id ==>
              SlotsOf(table[s := id], n) == SlotsOf(table, n)
  {
    assert SlotsOf(table[s := id], id) == SlotsOf(table, id) + {s} && s !in SlotsOf(table, id);
  }

  /** An entry in no table can be forgotten. */
  lemma ForgetKeepsNew(env: Env, infos: Infos, table: Table, limbo: set<int>, id: int)
    requires NewOk(env, infos, table, limbo) && id in limbo
    ensures NewOk(env, infos - {id}, table, limbo - {id})
    ensures NewIds(infos - {id}, limbo - {id}) == NewIds(infos, limbo)
    ensures TriedIds(infos - {id}) == TriedIds(infos)
    ensures id !in table.Values
  {
    NoSlots(table, id);
  }

  /** A fresh entry starts in no table. */
  lemma CreateKeepsNew(env: Env, infos: Infos, table: Table, limbo: set<int>, id: int, info: AddrInfo)
    requires NewOk(env, infos, table, limbo) && id !in infos && info.refCount == 0 && !info.inTried
    ensures NewOk(env, infos[id := info], table, limbo + {id})
    ensures NewIds(infos[id := info], limbo + {id}) == NewIds(infos, limbo)
    ensures TriedIds(infos[id := info]) == TriedIds(infos)
  {
    assert SlotsOf(table, id) == {};
  }

  /** A fresh entry joins the address index and the end of the random order. */
  lemma CreateKeepsIndexes(env: Env, infos: Infos, addrs: map<NetAddr, int>, order: seq<int>, tried: Table,
                           id: int, info: AddrInfo)
    requires AddrOk(infos, addrs) && RandomOk(infos, order) && TriedOk(env, infos, tried)
    requires id !in infos && info.Net() !in addrs && info.randomPos == |order| && !info.inTried
    ensures AddrOk(infos[id := info], addrs[info.Net() := id])
    ensures RandomOk(infos[id := info], order + [id])
    ensures TriedOk(env, infos[id := info], tried)
  {
    assert infos[id := info] - {id} == infos;
  }

  /** Forgetting the entry at the end of the random order. */
  lemma ForgetKeepsIndexes(env: Env, infos: Infos, addrs: map<NetAddr, int>, order: seq<int>, tried: Table, id: int)
    requires AddrOk(infos, addrs) && RandomOk(infos, order) && TriedOk(env, infos, tried)
    requires id in infos && infos[id].randomPos == |order| - 1 && !infos[id].inTried
    ensures AddrOk(infos - {id}, addrs - {infos[id].Net()})
    ensures RandomOk(infos - {id}, order[..|order| - 1])
    ensures TriedOk(env, infos - {id}, tried)
  {
  }

  // ----- Steps on the tried table ---------------------------------------------------

  /** Removing an entry from tried leaves it in no table. */
  lemma LeaveTried(env: Env, infos: Infos, tried: Table, table: Table, limbo: set<int>, s: Slot, infos': Infos)
    requires TriedOk(env, infos, tried) && NewOk(env, infos, table, limbo) && s in tried
    requires infos' == infos[tried[s] := infos[tried[s]].(inTried := false)]
    ensures TriedOk(env, infos', tried - {s})
    ensures NewOk(env, infos', table, limbo + {tried[s]})
    ensures TriedIds(infos') == TriedIds(infos) - {tried[s]} && tried[s] in TriedIds(infos)
    ensures NewIds(infos', limbo + {tried[s]}) == NewIds(infos, limbo)
  {
    assert SlotsOf(table, tried[s]) == {};
  }

  /** An entry in no table can be put into its free tried slot. */
  lemma EnterTried(env: Env, infos: Infos, tried: Table, table: Table, limbo: set<int>, id: int, infos': Infos)
    requires TriedOk(env, infos, tried) && NewOk(env, infos, table, limbo) && id in limbo
    requires TriedSlot(env, infos[id].addr.service) !in tried
    requires infos' == infos[id := infos[id].(inTried := true)]
    ensures TriedOk(env, infos', tried[TriedSlot(env, infos[id].addr.service) := id])
    ensures NewOk(env, infos', table, limbo - {id})
    ensures TriedIds(infos') == TriedIds(infos) + {id} && id !in TriedIds(infos)
    ensures NewIds(infos', limbo - {id}) == NewIds(infos, limbo)
  {
    NoSlots(table, id);
  }

  // ----- The whole state and its steps -------------------------------------------

  datatype State = State(infos: Infos, addrs: map<NetAddr, int>, order: seq<int>, tried: Table, table: Table,
                         nTried: int, nNew: int, idCount: int)

  /** Everything `Check_` looks at, while the entries in `limbo` are on their way
      between tables and nNew is off by `pending`. */
  ghost predicate Core(env: Env, st: State, limbo: set<int>, pending: int) {
    && AddrOk(st.infos, st.addrs)
    && RandomOk(st.infos, st.order)
    && TriedOk(env, st.infos, st.tried)
    && NewOk(env, st.infos, st.table, limbo)
    && CountOk(st.infos, st.nTried, st.nNew, limbo, pending)
    && TimesOk(env, st.infos)
    && IdsOk(st.infos, st.idCount)
  }

  lemma NothingIsConsistent(env: Env)
    ensures Core(env, State(map[], map[], [], map[], map[], 0, 0, 0), {}, 0)
  {
    assert TriedIds(map[]) == {} && NewIds(map[], {}) == {};
  }

  /** A new entry, not yet in any bucket. */
  ghost function Created(st: State, addr: Address, source: NetAddr): State {
    var info := NewInfo(addr, source).(randomPos := |st.order|);
    st.(infos := st.infos[st.idCount := info], addrs := st.addrs[addr.service.net := st.idCount],
        order := st.order + [st.idCount], idCount := st.idCount + 1)
  }

  lemma CreateKeeps(env: Env, st: State, addr: Address, source: NetAddr)
    requires Core(env, st, {}, 0) && addr.service.net !in st.addrs
    ensures st.idCount !in st.infos
    ensures Core(env, Created(st, addr, source), {st.idCount}, 0)
  {
    hide AddrOk, RandomOk, TriedOk, NewOk;
    var info := NewInfo(addr, source).(randomPos := |st.order|);
    CreateKeepsIndexes(env, st.infos, st.addrs, st.order, st.tried, st.idCount, info);
    CreateKeepsNew(env, st.infos, st.table, {}, st.idCount, info);
    assert {} + {st.idCount} == {st.idCount};
  }

  ghost function Swapped(st: State, p1: int, p2: int): State
    requires 0 <= p1 < |st.order| && 0 <= p2 < |st.order|
    requires st.order[p1] in st.infos && st.order[p2] in st.infos
  {
    if p1 == p2 then st
    else
      var id1, id2 := st.order[p1], st.order[p2];
      st.(infos := st.infos[id1 := st.infos[id1].(randomPos := p2)][id2 := st.infos[id2].(randomPos := p1)],
          order := st.order[p1 := id2][p2 := id1])
  }

  lemma SwapKeeps(env: Env, st: State, p1: int, p2: int, limbo: set<int>, pending: int)
    requires Core(env, st, limbo, pending)
    requires 0 <= p1 < |st.order| && 0 <= p2 < |st.order|
    ensures Core(env, Swapped(st, p1, p2), limbo, pending)
    ensures OnlyMoved(st.infos, Swapped(st, p1, p2).infos)
  {
    SwapKeepsOrder(st, p1, p2);
    SwapMoves(st, p1, p2);
    MovedKeeps(env, st.infos, Swapped(st, p1, p2).infos, st.addrs, st.tried, st.table, limbo);
  }

  lemma SwapMoves(st: State, p1: int, p2: int)
    requires RandomOk(st.infos, st.order)
    requires 0 <= p1 < |st.order| && 0 <= p2 < |st.order|
    ensures OnlyMoved(st.infos, Swapped(st, p1, p2).infos)
  {
  }

  lemma SwapKeepsOrder(st: State, p1: int, p2: int)
    requires RandomOk(st.infos, st.order)
    requires 0 <= p1 < |st.order| && 0 <= p2 < |st.order|
    ensures RandomOk(Swapped(st, p1, p2).infos, Swapped(st, p1, p2).order)
  {
    SwapMoves(st, p1, p2);
    assert |Swapped(st, p1, p2).infos| == |st.infos.Keys|;
  }

  /** The entry at the end of the random order leaves all indexes. */
  ghost function Popped(st: State, id: int): State
    requires id in st.infos && |st.order| > 0
  {
    st.(order := st.order[..|st.order| - 1], addrs := st.addrs - {st.infos[id].Net()},
        infos := st.infos - {id}, nNew := st.nNew - 1)
  }

  lemma PopKeeps(env: Env, st: State, id: int, limbo: set<int>, pending: int)
    requires Core(env, st, limbo, pending) && id in limbo && st.infos[id].randomPos == |st.order| - 1
    ensures Core(env, Popped(st, id), limbo - {id}, pending - 1)
  {
    ForgetKeepsIndexes(env, st.infos, st.addrs, st.order, st.tried, id);
    ForgetKeepsNew(env, st.infos, st.table, limbo, id);
  }

  /** An entry leaves all indexes. */
  ghost function Deleted(st: State, id: int): State
    requires RandomOk(st.infos, st.order) && id in st.infos
  {
    Popped(Swapped(st, st.infos[id].randomPos, |st.order| - 1), id)
  }

  lemma LimboPresent(env: Env, st: State, limbo: set<int>, pending: int, id: int)
    requires Core(env, st, limbo, pending) && id in limbo
    ensures id in st.infos
  {
    hide AddrOk, RandomOk, TriedOk, CountOk, TimesOk, IdsOk;
  }

  lemma SwapLast(st: State, id: int)
    requires RandomOk(st.infos, st.order) && id in st.infos
    ensures 0 <= st.infos[id].randomPos < |st.order| && st.order[st.infos[id].randomPos] == id
    ensures st.order[|st.order| - 1] in st.infos
    ensures var st' := Swapped(st, st.infos[id].randomPos, |st.order| - 1);
            |st'.order| == |st.order| && id in st'.infos && st'.infos[id].randomPos == |st.order| - 1
  {
  }

  lemma MovedWithout(infos: Infos, infos': Infos, id: int)
    requires OnlyMoved(infos, infos')
    ensures OnlyMoved(infos - {id}, infos' - {id})
  {
  }

  lemma DeleteKeeps(env: Env, st: State, id: int, limbo: set<int>, pending: int)
    requires Core(env, st, limbo, pending) && id in limbo
    ensures Core(env, Deleted(st, id), limbo - {id}, pending - 1)
    ensures OnlyMoved(st.infos - {id}, Deleted(st, id).infos)
  {
    hide AddrOk, TriedOk, NewOk, CountOk, TimesOk, IdsOk, RandomOk, Swapped, OnlyMoved;
    LimboPresent(env, st, limbo, pending, id);
    SwapLast(st, id);
    var st' := Swapped(st, st.infos[id].randomPos, |st.order| - 1);
    SwapKeeps(env, st, st.infos[id].randomPos, |st.order| - 1, limbo, pending);
    PopKeeps(env, st', id, limbo, pending);
    MovedWithout(st.infos, st'.infos, id);
  }

  lemma RecountKeepsOrder(infos: Infos, order: seq<int>, id: int, count: int)
    requires RandomOk(infos, order) && id in infos
    ensures RandomOk(infos[id := infos[id].(refCount := count)], order)
  {
    var infos' := infos[id := infos[id].(refCount := count)];
    assert infos'.Keys == infos.Keys;
    assert |infos'| == |infos'.Keys| == |infos|;
  }

  /** The reference count of an entry that is not tried matters only to the new table. */
  lemma RecountKeeps(env: Env, infos: Infos, addrs: map<NetAddr, int>, order: seq<int>, tried: Table,
                     id: int, count: int)
    requires AddrOk(infos, addrs) && RandomOk(infos, order) && TriedOk(env, infos, tried)
    requires id in infos && !infos[id].inTried
    ensures var infos' := infos[id := infos[id].(refCount := count)];
            && AddrOk(infos', addrs) && RandomOk(infos', order) && TriedOk(env, infos', tried)
            && TriedIds(infos') == TriedIds(infos)
            && (forall limbo :: NewIds(infos', limbo) == NewIds(infos, limbo))
  {
    RecountKeepsOrder(infos, order, id, count);
  }

  lemma LimboGrows(infos: Infos, limbo: set<int>, id: int)
    requires id in infos && !infos[id].inTried && id !in limbo
    ensures |NewIds(infos, limbo + {id})| == |NewIds(infos, limbo)| - 1
  {
    assert NewIds(infos, limbo + {id}) == NewIds(infos, limbo) - {id};
  }

  /** A reference to an entry is taken away from one new slot. */
  ghost function Unreferenced(st: State, s: Slot): State
    requires s in st.table && st.table[s] in st.infos
  {
    var id := st.table[s];
    st.(infos := st.infos[id := st.infos[id].(refCount := st.infos[id].refCount - 1)], table := st.table - {s})
  }

  lemma UnreferenceKeeps(env: Env, st: State, s: Slot, limbo: set<int>, pending: int)
    requires Core(env, st, limbo, pending) && s in st.table
    ensures var id, st' := st.table[s], Unreferenced(st, s);
            && id !in limbo && st.infos[id].refCount >= 1
            && (if st'.infos[id].refCount == 0 then Core(env, st', limbo + {id}, pending + 1)
                else Core(env, st', limbo, pending))
  {
    hide AddrOk, RandomOk, TriedOk;
    var id, st' := st.table[s], Unreferenced(st, s);
    DropSlot(env, st.infos, st.table, limbo, s, st'.infos);
    RecountKeeps(env, st.infos, st.addrs, st.order, st.tried, id, st.infos[id].refCount - 1);
    LimboGrows(st.infos, limbo, id);
  }

  /** A new slot is emptied; an entry losing its last slot is deleted. */
  ghost function Cleared(st: State, s: Slot): State
    requires RandomOk(st.infos, st.order) && (s in st.table ==> st.table[s] in st.infos)
  {
    if s !in st.table then st
    else
      var id, st' := st.table[s], Unreferenced(st, s);
      if st'.infos[id].refCount == 0 then Deleted(st', id) else st'
  }

  lemma ClearTouches(st: State, s: Slot)
    requires RandomOk(st.infos, st.order) && (s in st.table ==> st.table[s] in st.infos)
    ensures Cleared(st, s).tried == st.tried && Cleared(st, s).table == st.table - {s}
  {
    if s !in st.table {
      assert st.table - {s} == st.table;
    }
  }

  lemma TableInInfos(env: Env, st: State, limbo: set<int>, pending: int, s: Slot)
    requires Core(env, st, limbo, pending)
    ensures RandomOk(st.infos, st.order) && (s in st.table ==> st.table[s] in st.infos)
  {
    hide AddrOk, RandomOk, TriedOk, CountOk, TimesOk, IdsOk;
  }

  lemma ClearKeeps(env: Env, st: State, s: Slot, limbo: set<int>, pending: int)
    requires Core(env, st, limbo, pending)
    ensures Core(env, Cleared(st, s), limbo, pending)
    ensures forall n :: n in st.infos && (s in st.table ==> n != st.table[s]) ==>
              n in Cleared(st, s).infos
              && Cleared(st, s).infos[n] == st.infos[n].(randomPos := Cleared(st, s).infos[n].randomPos)
  {
    hide AddrOk, RandomOk, TriedOk, NewOk, CountOk, TimesOk, IdsOk, Deleted;
    TableInInfos(env, st, limbo, pending, s);
    if s in st.table {
      var id, st' := st.table[s], Unreferenced(st, s);
      UnreferenceKeeps(env, st, s, limbo, pending);
      if st'.infos[id].refCount == 0 {
        DeleteKeeps(env, st', id, limbo + {id}, pending + 1);
        assert limbo + {id} - {id} == limbo;
      }
    }
  }

  /** An entry gets a reference in a free new slot. */
  ghost function Referenced(st: State, s: Slot, id: int): State
    requires id in st.infos
  {
    st.(infos := st.infos[id := st.infos[id].(refCount := st.infos[id].refCount + 1)], table := st.table[s := id])
  }

  /** An entry in limbo comes back to the new table and is counted again. */
  lemma ReferenceKeeps(env: Env, st: State, s: Slot, id: int, limbo: set<int>, pending: int)
    requires Core(env, st, limbo, pending) && s !in st.table && id in st.infos && !st.infos[id].inTried
    requires 0 <= s.bucket < NEW_BUCKET_COUNT && NewSlotIn(env, st.infos[id].addr.service, s.bucket) == s
    requires st.infos[id].refCount < NEW_BUCKETS_PER_ADDRESS
    ensures Core(env, Referenced(st, s, id), limbo - {id}, if id in limbo then pending - 1 else pending)
  {
    FillSlot(env, st.infos, st.table, limbo, s, id, Referenced(st, s, id).infos);
    RecountKeeps(env, st.infos, st.addrs, st.order, st.tried, id, st.infos[id].refCount + 1);
    if id in limbo {
      LimboGrows(st.infos, limbo - {id}, id);
      assert limbo - {id} + {id} == limbo;
    } else {
      assert limbo - {id} == limbo;
    }
  }

  /** An entry leaves all its new slots at once. */
  ghost function Unlisted(st: State, id: int): State
    requires id in st.infos
  {
    st.(infos := st.infos[id := st.infos[id].(refCount := 0)],
        table := st.table - SlotsOf(st.table, id), nNew := st.nNew - 1)
  }

  lemma UnlistKeeps(env: Env, st: State, id: int)
    requires Core(env, st, {}, 0) && id in st.infos && !st.infos[id].inTried
    ensures Core(env, Unlisted(st, id), {id}, 0)
  {
    var st' := Unlisted(st, id);
    RecountKeeps(env, st.infos, st.addrs, st.order, st.tried, id, 0);
    LimboGrows(st.infos, {}, id);
    assert {} + {id} == {id};
    UnlistKeepsNew(env, st.infos, st.table, id);
  }

  lemma UnlistKeepsNew(env: Env, infos: Infos, table: Table, id: int)
    requires NewOk(env, infos, table, {}) && id in infos && !infos[id].inTried
    ensures NewOk(env, infos[id := infos[id].(refCount := 0)], table - SlotsOf(table, id), {id})
  {
    var table' := table - SlotsOf(table, id);
    assert SlotsOf(table', id) == {};
    forall n | n != id
      ensures SlotsOf(table', n) == SlotsOf(table, n)
    {
      assert forall s :: s in SlotsOf(table, n) ==> s in table';
    }
  }

  ghost function WithCount(infos: Infos, id: int, count: int): Infos
    requires id in infos
  {
    infos[id := infos[id].(refCount := count)]
  }

  lemma Recount(infos: Infos, id: int, count: int)
    requires id in infos
    ensures WithCount(infos, id, infos[id].refCount) == infos
    ensures WithCount(WithCount(infos, id, count), id, count - 1) == WithCount(infos, id, count - 1)
  {
  }

  /** The new table when the buckets below `b` have been searched for an entry. */
  ghost function Searched(table: Table, id: int, b: int): Table {
    table - (set s | s in table && table[s] == id && s.bucket < b)
  }

  /** Looking only at the entry's own position in each bucket misses none of its slots. */
  lemma SearchStep(env: Env, infos: Infos, table: Table, id: int, b: int)
    requires NewOk(env, infos, table, {}) && id in infos && !infos[id].inTried
    ensures var s := NewSlotIn(env, infos[id].addr.service, b);
            var before, after := Searched(table, id, b), Searched(table, id, b + 1);
            if s in before && before[s] == id
            then after == before - {s} && |SlotsOf(after, id)| == |SlotsOf(before, id)| - 1
            else after == before
  {
    hide NewOk, NewSlotIn, SlotsOf;
    var s := NewSlotIn(env, infos[id].addr.service, b);
    var before := Searched(table, id, b);
    OwnSlot(env, infos, table, id, b);
    if s in before && before[s] == id {
      SlotsAfterDrop(before, s);
    }
  }

  lemma SlotsCounted(env: Env, infos: Infos, table: Table, id: int)
    requires NewOk(env, infos, table, {}) && id in infos && !infos[id].inTried
    ensures infos[id].refCount == |SlotsOf(table, id)|
  {
  }

  lemma OwnSlot(env: Env, infos: Infos, table: Table, id: int, b: int)
    requires NewOk(env, infos, table, {}) && id in infos
    ensures var s := NewSlotIn(env, infos[id].addr.service, b);
            s.bucket == b && forall t :: t in table && table[t] == id && t.bucket == b ==> t == s
  {
  }

  lemma SearchEnds(env: Env, infos: Infos, table: Table, id: int)
    requires NewOk(env, infos, table, {})
    ensures Searched(table, id, 0) == table
    ensures Searched(table, id, NEW_BUCKET_COUNT) == table - SlotsOf(table, id)
    ensures |SlotsOf(Searched(table, id, NEW_BUCKET_COUNT), id)| == 0
  {
    assert SlotsOf(table - SlotsOf(table, id), id) == {};
  }

  /** The entry in a tried slot is taken out of it. */
  ghost function Evicted(st: State, s: Slot): State
    requires s in st.tried && st.tried[s] in st.infos
  {
    var id := st.tried[s];
    st.(infos := st.infos[id := st.infos[id].(inTried := false)], tried := st.tried - {s}, nTried := st.nTried - 1)
  }

  lemma EvictKeeps(env: Env, st: State, s: Slot, limbo: set<int>)
    requires Core(env, st, limbo, 0) && s in st.tried
    ensures Core(env, Evicted(st, s), limbo + {st.tried[s]}, 0)
  {
    var id := st.tried[s];
    RetryKeepsIndexes(st.infos, st.addrs, st.order, id, false);
    LeaveTried(env, st.infos, st.tried, st.table, limbo, s, Evicted(st, s).infos);
  }

  lemma RetryKeepsIndexes(infos: Infos, addrs: map<NetAddr, int>, order: seq<int>, id: int, inTried: bool)
    requires AddrOk(infos, addrs) && RandomOk(infos, order) && id in infos
    ensures var infos' := infos[id := infos[id].(inTried := inTried)];
            AddrOk(infos', addrs) && RandomOk(infos', order)
  {
    var infos' := infos[id := infos[id].(inTried := inTried)];
    assert infos'.Keys == infos.Keys;
    assert |infos'| == |infos'.Keys| == |infos|;
  }

  /** An entry in limbo enters its free tried slot. */
  ghost function Promoted(env: Env, st: State, id: int): State
    requires id in st.infos
  {
    st.(infos := st.infos[id := st.infos[id].(inTried := true)],
        tried := st.tried[TriedSlot(env, st.infos[id].addr.service) := id], nTried := st.nTried + 1)
  }

  lemma PromoteKeeps(env: Env, st: State, id: int, limbo: set<int>)
    requires Core(env, st, limbo, 0) && id in limbo && (env.positiveClocks ==> st.infos[id].lastSuccess > 0)
    requires TriedSlot(env, st.infos[id].addr.service) !in st.tried
    ensures Core(env, Promoted(env, st, id), limbo - {id}, 0)
  {
    RetryKeepsIndexes(st.infos, st.addrs, st.order, id, true);
    EnterTried(env, st.infos, st.tried, st.table, limbo, id, Promoted(env, st, id).infos);
  }

  /** The new slot an entry goes to according to its own source. */
  function HomeSlot(env: Env, info: AddrInfo): Slot {
    NewSlotIn(env, info.addr.service, NewBucket(env, info.addr.service, info.source))
  }

  /** No new slot holds an entry in limbo. */
  lemma LimboUnlisted(env: Env, st: State, limbo: set<int>, pending: int)
    requires Core(env, st, limbo, pending)
    ensures forall s :: s in st.table ==> st.table[s] !in limbo
  {
    forall s | s in st.table
      ensures st.table[s] !in limbo
    {
      if st.table[s] in limbo {
        NoSlots(st.table, st.table[s]);
      }
    }
  }

  /** What a new slot holds is an entry that is counted there. */
  lemma OccupantCounted(env: Env, st: State, limbo: set<int>, pending: int, s: Slot)
    requires Core(env, st, limbo, pending) && s in st.table
    ensures st.table[s] in st.infos && !st.infos[st.table[s]].inTried && st.infos[st.table[s]].refCount > 0
  {
    assert s in SlotsOf(st.table, st.table[s]);
  }

  /** An entry that is not tried has a slot at its own position in some bucket. */
  lemma HasSlot(env: Env, st: State, id: int)
    requires Core(env, st, {}, 0) && id in st.infos && !st.infos[id].inTried
    ensures exists b :: 0 <= b < NEW_BUCKET_COUNT
                        && NewSlotIn(env, st.infos[id].addr.service, b) in st.table
                        && st.table[NewSlotIn(env, st.infos[id].addr.service, b)] == id
  {
    var s :| s in SlotsOf(st.table, id);
    assert NewSlotIn(env, st.infos[id].addr.service, s.bucket) == s;
  }

  /** Entries in limbo are untouched, except for their place in the random order. */
  ghost predicate KeepsLimbo(st: State, st': State, limbo: set<int>) {
    forall n :: n in limbo && n in st.infos ==>
      n in st'.infos && st'.infos[n] == st.infos[n].(randomPos := st'.infos[n].randomPos)
  }

  /** The asserts of `ClearNew` hold, and clearing the slot leaves the entry alone. */
  ghost predicate CanInsert(st: State, id: int, s: Slot) {
    && RandomOk(st.infos, st.order) && id in st.infos && id >= 0
    && (s in st.table ==> st.table[s] in st.infos && st.table[s] != id
                          && !st.infos[st.table[s]].inTried && st.infos[st.table[s]].refCount > 0)
    && id in Cleared(st, s).infos && Cleared(st, s).infos[id].refCount == st.infos[id].refCount
  }

  /** An entry takes over a new slot, whatever is there. */
  ghost function Inserted(st: State, id: int, s: Slot): State
    requires CanInsert(st, id, s)
  {
    Referenced(Cleared(st, s), s, id)
  }

  /** An entry not in the slot, with room for one more reference, may take it over. */
  lemma InsertKeeps(env: Env, st: State, id: int, s: Slot, limbo: set<int>, pending: int)
    requires Core(env, st, limbo, pending) && id in st.infos && !st.infos[id].inTried
    requires s in st.table ==> st.table[s] != id
    requires 0 <= s.bucket < NEW_BUCKET_COUNT && NewSlotIn(env, st.infos[id].addr.service, s.bucket) == s
    requires st.infos[id].refCount < NEW_BUCKETS_PER_ADDRESS
    ensures CanInsert(st, id, s)
    ensures var st' := Inserted(st, id, s);
            && Core(env, st', limbo - {id}, if id in limbo then pending - 1 else pending)
            && st'.tried == st.tried && KeepsLimbo(st, st', limbo - {id})
            && s in st'.table && st'.table[s] == id
  {
    ClearKeeps(env, st, s, limbo, pending);
    ClearTouches(st, s);
    LimboUnlisted(env, st, limbo, pending);
    if s in st.table {
      OccupantCounted(env, st, limbo, pending, s);
    }
    ReferenceKeeps(env, Cleared(st, s), s, id, limbo, pending);
  }

  /** An entry goes back to the new slot of its source and is counted again. */
  ghost function Rehomed(env: Env, st: State, id: int): State
    requires id in st.infos && CanInsert(st, id, HomeSlot(env, st.infos[id]))
  {
    var st' := Inserted(st, id, HomeSlot(env, st.infos[id]));
    st'.(nNew := st'.nNew + 1)
  }

  lemma LimboCanInsert(env: Env, st: State, id: int, limbo: set<int>)
    requires Core(env, st, limbo, 0) && id in limbo
    ensures CanInsert(st, id, HomeSlot(env, st.infos[id])) && st.infos[id].refCount == 0
  {
    LimboUnlisted(env, st, limbo, 0);
    InsertKeeps(env, st, id, HomeSlot(env, st.infos[id]), limbo, 0);
  }

  lemma RehomeKeeps(env: Env, st: State, id: int, limbo: set<int>)
    requires Core(env, st, limbo, 0) && id in limbo
    ensures CanInsert(st, id, HomeSlot(env, st.infos[id])) && st.infos[id].refCount == 0
    ensures var st' := Rehomed(env, st, id);
            && Core(env, st', limbo - {id}, 0) && st'.tried == st.tried
            && KeepsLimbo(st, st', limbo - {id})
  {
    LimboUnlisted(env, st, limbo, 0);
    InsertKeeps(env, st, id, HomeSlot(env, st.infos[id]), limbo, 0);
  }

  /** The occupant of a tried slot, if any, is moved back to the new table. */
  ghost function RoomMade(env: Env, st: State, slot: Slot, limbo: set<int>): State
    requires Core(env, st, limbo, 0)
  {
    if slot !in st.tried then st
    else
      EvictKeeps(env, st, slot, limbo);
      LimboCanInsert(env, Evicted(st, slot), st.tried[slot], limbo + {st.tried[slot]});
      Rehomed(env, Evicted(st, slot), st.tried[slot])
  }

  lemma TriedNotInLimbo(env: Env, st: State, slot: Slot, limbo: set<int>)
    requires Core(env, st, limbo, 0) && slot in st.tried
    ensures st.tried[slot] in st.infos && st.tried[slot] !in limbo
  {
    hide AddrOk, RandomOk, CountOk, TimesOk, IdsOk;
    var id := st.tried[slot];
    assert st.infos[id].inTried;
  }

  lemma MakeRoomKeeps(env: Env, st: State, slot: Slot, limbo: set<int>)
    requires Core(env, st, limbo, 0)
    ensures var st' := RoomMade(env, st, slot, limbo);
            Core(env, st', limbo, 0) && st'.tried == st.tried - {slot} && KeepsLimbo(st, st', limbo)
  {
    hide AddrOk, RandomOk, TriedOk, NewOk, CountOk, TimesOk, IdsOk, CanInsert, Inserted, HomeSlot;
    if slot in st.tried {
      var id := st.tried[slot];
      TriedNotInLimbo(env, st, slot, limbo);
      EvictKeeps(env, st, slot, limbo);
      RehomeKeeps(env, Evicted(st, slot), id, limbo + {id});
      assert limbo + {id} - {id} == limbo;
    } else {
      assert st.tried - {slot} == st.tried;
    }
  }

  /** The whole move of an entry from the new table to its tried slot. */
  ghost function TriedMade(env: Env, st: State, id: int): State
    requires Core(env, st, {}, 0) && id in st.infos && !st.infos[id].inTried
  {
    var slot := TriedSlot(env, st.infos[id].addr.service);
    UnlistKeeps(env, st, id);
    MakeRoomKeeps(env, Unlisted(st, id), slot, {id});
    Promoted(env, RoomMade(env, Unlisted(st, id), slot, {id}), id)
  }

  lemma MakeTriedKeeps(env: Env, st: State, id: int)
    requires Core(env, st, {}, 0) && id in st.infos && !st.infos[id].inTried
             && (env.positiveClocks ==> st.infos[id].lastSuccess > 0)
    ensures Core(env, TriedMade(env, st, id), {}, 0)
  {
    var slot := TriedSlot(env, st.infos[id].addr.service);
    UnlistKeeps(env, st, id);
    MakeRoomKeeps(env, Unlisted(st, id), slot, {id});
    PromoteKeeps(env, RoomMade(env, Unlisted(st, id), slot, {id}), id, {id});
    assert {id} - {id} == {};
  }

  /** The tried table gains the entry in its slot and loses nothing else. */
  lemma MakeTriedFills(env: Env, st: State, id: int)
    requires Core(env, st, {}, 0) && id in st.infos && !st.infos[id].inTried
    ensures TriedMade(env, st, id).tried == st.tried[TriedSlot(env, st.infos[id].addr.service) := id]
  {
    var slot := TriedSlot(env, st.infos[id].addr.service);
    UnlistKeeps(env, st, id);
    var st1 := RoomMade(env, Unlisted(st, id), slot, {id});
    MakeRoomKeeps(env, Unlisted(st, id), slot, {id});
    assert TriedMade(env, st, id).tried == st1.tried[slot := id];
    RefillSlot(st.tried, slot, id);
  }

  /** The moved entry keeps all but its place. */
  lemma MakeTriedEntry(env: Env, st: State, id: int)
    requires Core(env, st, {}, 0) && id in st.infos && !st.infos[id].inTried
    ensures var infos' := TriedMade(env, st, id).infos;
            id in infos'
            && infos'[id] == st.infos[id].(refCount := 0, inTried := true, randomPos := infos'[id].randomPos)
  {
    hide Core, RoomMade, TriedSlot;
    var slot := TriedSlot(env, st.infos[id].addr.service);
    UnlistKeeps(env, st, id);
    MakeRoomKeeps(env, Unlisted(st, id), slot, {id});
  }

  lemma RefillSlot(tried: Table, slot: Slot, id: int)
    ensures (tried - {slot})[slot := id] == tried[slot := id]
  {
  }

  // ----- No step invents or renames an entry ---------------------------------------

  ghost predicate Descends(infos: Infos, infos': Infos) {
    forall n :: n in infos' ==> n in infos && infos'[n].addr.service == infos[n].addr.service
  }

  lemma ClearDescends(st: State, s: Slot)
    requires RandomOk(st.infos, st.order) && (s in st.table ==> st.table[s] in st.infos)
    ensures Descends(st.infos, Cleared(st, s).infos)
  {
    if s in st.table {
      var st' := Unreferenced(st, s);
      RecountKeepsOrder(st.infos, st.order, st.table[s], st.infos[st.table[s]].refCount - 1);
      assert Descends(st.infos, st'.infos);
    }
  }

  lemma MakeTriedDescends(env: Env, st: State, id: int)
    requires Core(env, st, {}, 0) && id in st.infos && !st.infos[id].inTried
    ensures Descends(st.infos, TriedMade(env, st, id).infos)
  {
    hide AddrOk, RandomOk, TriedOk, NewOk, CountOk, TimesOk, IdsOk, RoomMade, TriedSlot;
    var slot := TriedSlot(env, st.infos[id].addr.service);
    var st1 := Unlisted(st, id);
    assert Descends(st.infos, st1.infos);
    UnlistKeeps(env, st, id);
    MakeRoomKeeps(env, st1, slot, {id});
    MakeRoomDescends(env, st1, slot, {id});
  }

  lemma MakeRoomDescends(env: Env, st: State, slot: Slot, limbo: set<int>)
    requires Core(env, st, limbo, 0)
    ensures Descends(st.infos, RoomMade(env, st, slot, limbo).infos)
  {
    hide AddrOk, RandomOk, NewOk, CountOk, TimesOk, IdsOk, HomeSlot, Cleared;
    if slot in st.tried {
      var id, st' := st.tried[slot], Evicted(st, slot);
      EvictKeeps(env, st, slot, limbo);
      LimboCanInsert(env, st', id, limbo + {id});
      ClearDescends(st', HomeSlot(env, st'.infos[id]));
      assert Descends(st.infos, st'.infos);
    }
  }

  // ----- Steps on statistics ------------------------------------------------------

  /** Only the statistics of one entry differ. */
  ghost predicate SameEntry(info: AddrInfo, info': AddrInfo) {
    && info'.addr.service == info.addr.service && info'.source == info.source
    && info'.refCount == info.refCount && info'.inTried == info.inTried && info'.randomPos == info.randomPos
  }

  ghost function Restated(st: State, id: int, info: AddrInfo): State {
    st.(infos := st.infos[id := info])
  }

  lemma RestateKeepsOrder(infos: Infos, order: seq<int>, id: int, info: AddrInfo)
    requires RandomOk(infos, order) && id in infos && info.randomPos == infos[id].randomPos
    ensures RandomOk(infos[id := info], order)
  {
    assert infos[id := info].Keys == infos.Keys;
    assert |infos[id := info]| == |infos[id := info].Keys| == |infos|;
  }

  lemma RestateKeeps(env: Env, st: State, id: int, info: AddrInfo, limbo: set<int>, pending: int)
    requires Core(env, st, limbo, pending) && id in st.infos && SameEntry(st.infos[id], info)
    requires TimesFit(env, info)
    ensures Core(env, Restated(st, id, info), limbo, pending)
  {
    var infos' := st.infos[id := info];
    RestateKeepsOrder(st.infos, st.order, id, info);
    ShapeKeepsAddrs(st.infos, infos', st.addrs);
    ShapeKeepsTried(env, st.infos, infos', st.tried);
    ShapeKeepsNew(env, st.infos, infos', st.table, limbo);
    ShapeKeepsCounts(st.infos, infos', limbo);
  }

  // ----- The waiting collisions ------------------------------------------------------

  /** Collisions stay truthful when no entry is renamed and no tried slot is vacated. */
  lemma CollisionsStay(env: Env, infos: Infos, infos': Infos, tried: Table, tried': Table, collisions: set<int>,
                       idCount: int)
    requires CollisionsOk(env, infos, tried, collisions, idCount)
    requires Descends(infos, infos') && tried.Keys <= tried'.Keys
    ensures CollisionsOk(env, infos', tried', collisions, idCount)
  {
    forall n | n in collisions && n in infos'
      ensures TriedSlot(env, infos'[n].addr.service) in tried'
    {
      assert TriedSlot(env, infos[n].addr.service) in tried.Keys;
    }
  }

  /** Between calls: consistent, and every waiting collision has an occupied slot. */
  ghost predicate Settled(env: Env, st: State, collisions: set<int>) {
    Core(env, st, {}, 0) && CollisionsOk(env, st.infos, st.tried, collisions, st.idCount)
  }

  /** Everything a move to the tried table keeps. */
  lemma MoveSettles(env: Env, st: State, id: int, collisions: set<int>)
    requires Settled(env, st, collisions)
    requires id in st.infos && !st.infos[id].inTried && (env.positiveClocks ==> st.infos[id].lastSuccess > 0)
    ensures var st' := TriedMade(env, st, id);
            && Settled(env, st', collisions)
            && id in st'.infos
            && st'.infos[id] == st.infos[id].(refCount := 0, inTried := true, randomPos := st'.infos[id].randomPos)
            && st'.tried.Keys == st.tried.Keys + {TriedSlot(env, st.infos[id].addr.service)}
            && Descends(st.infos, st'.infos) && st'.idCount == st.idCount
  {
    var slot, st' := TriedSlot(env, st.infos[id].addr.service), TriedMade(env, st, id);
    MakeTriedKeeps(env, st, id);
    MakeTriedFills(env, st, id);
    MakeTriedEntry(env, st, id);
    MakeTriedDescends(env, st, id);
    MakeTriedKeepsIds(env, st, id);
    CollisionsStay(env, st.infos, st'.infos, st.tried, st'.tried, collisions, st.idCount);
    assert slot in st'.tried && st'.tried[slot] == id;
  }

  lemma MakeTriedKeepsIds(env: Env, st: State, id: int)
    requires Core(env, st, {}, 0) && id in st.infos && !st.infos[id].inTried
    ensures TriedMade(env, st, id).idCount == st.idCount
  {
    hide Core;
  }

  lemma RestateSettles(env: Env, st: State, id: int, info: AddrInfo, collisions: set<int>)
    requires Settled(env, st, collisions) && id in st.infos && SameEntry(st.infos[id], info)
    requires TimesFit(env, info)
    ensures Settled(env, Restated(st, id, info), collisions)
    ensures Descends(st.infos, Restated(st, id, info).infos)
  {
    RestateKeeps(env, st, id, info, {}, 0);
    CollisionsStay(env, st.infos, st.infos[id := info], st.tried, st.tried, collisions, st.idCount);
  }

  lemma CollideSettles(env: Env, st: State, id: int, collisions: set<int>)
    requires Settled(env, st, collisions) && id in st.infos && |collisions| < SET_TRIED_COLLISION_SIZE
    requires TriedSlot(env, st.infos[id].addr.service) in st.tried
    ensures Settled(env, st, collisions + {id})
  {
  }

  lemma IndexedByAddress(env: Env, st: State, id: int)
    requires Core(env, st, {}, 0)
    ensures id in st.infos ==> id >= 0 && st.infos[id].Net() in st.addrs && st.addrs[st.infos[id].Net()] == id
    ensures forall net :: net in st.addrs ==> st.addrs[net] in st.infos && st.addrs[net] >= 0
                                              && st.infos[st.addrs[net]].Net() == net
  {
  }

  lemma KnownAddress(env: Env, st: State, limbo: set<int>, pending: int, id: int)
    requires Core(env, st, limbo, pending) && id in st.infos
    ensures st.infos[id].Net() in st.addrs && st.addrs[st.infos[id].Net()] == id
  {
    hide RandomOk, TriedOk, NewOk, CountOk, TimesOk, IdsOk;
  }

  lemma StatisticsKept(env: Env, st: State, id: int)
    requires Core(env, st, {}, 0) && id in st.infos
    ensures TimesFit(env, st.infos[id])
    ensures !st.infos[id].inTried ==> 1 <= st.infos[id].refCount <= NEW_BUCKETS_PER_ADDRESS
    ensures id >= 0
  {
  }

  lemma Occupants(env: Env, st: State, limbo: set<int>, pending: int)
    requires Core(env, st, limbo, pending)
    ensures forall s :: s in st.table ==> st.table[s] in st.infos
  {
  }

  /** Whether an address not yet known would get the new slot its source assigns:
      the slot is free, or its occupant is terrible or has other slots. */
  ghost predicate Admits(env: Env, st: State, service: Service, source: NetAddr, now: int) {
    var s := NewSlotIn(env, service, NewBucket(env, service, source));
    s in st.table ==> st.table[s] in st.infos
                      && (st.infos[st.table[s]].IsTerrible(now) || st.infos[st.table[s]].refCount > 1)
  }

  /** A fresh entry, counted but in no bucket yet. */
  ghost function Registered(st: State, addr: Address, source: NetAddr, time: int): State {
    var st' := Created(st, addr, source);
    var info := st'.infos[st.idCount];
    st'.(infos := st'.infos[st.idCount := info.(addr := addr.(time := time))], nNew := st.nNew + 1)
  }

  lemma RegisterKeeps(env: Env, st: State, addr: Address, source: NetAddr, time: int, collisions: set<int>)
    requires Settled(env, st, collisions) && addr.service.net !in st.addrs
    ensures var id, st' := st.idCount, Registered(st, addr, source, time);
            && id >= 0 && Core(env, st', {id}, 1)
            && CollisionsOk(env, st'.infos, st'.tried, collisions, st'.idCount)
            && (forall s :: s in st'.table ==> st'.table[s] in st'.infos && st'.table[s] != id)
            && (forall now :: Admits(env, st', addr.service, source, now)
                              <==> Admits(env, st, addr.service, source, now))
  {
    var id, st' := st.idCount, Created(st, addr, source);
    var info := st'.infos[id].(addr := addr.(time := time));
    CreateKeeps(env, st, addr, source);
    RestateKeeps(env, st', id, info, {id}, 0);
    LimboUnlisted(env, Restated(st', id, info), {id}, 0);
    Occupants(env, st, {}, 0);
  }

  lemma InsertSettles(env: Env, st: State, id: int, s: Slot, limbo: set<int>, pending: int, collisions: set<int>)
    requires Core(env, st, limbo, pending) && CollisionsOk(env, st.infos, st.tried, collisions, st.idCount)
    requires (limbo == {} && pending == 0) || (limbo == {id} && pending == 1)
    requires id in st.infos && !st.infos[id].inTried && (s in st.table ==> st.table[s] != id)
    requires 0 <= s.bucket < NEW_BUCKET_COUNT && NewSlotIn(env, st.infos[id].addr.service, s.bucket) == s
    requires st.infos[id].refCount < NEW_BUCKETS_PER_ADDRESS
    ensures CanInsert(st, id, s) && Settled(env, Inserted(st, id, s), collisions)
    ensures Inserted(st, id, s).tried == st.tried && Inserted(st, id, s).table == st.table[s := id]
    ensures Descends(st.infos, Inserted(st, id, s).infos) && Inserted(st, id, s).idCount == st.idCount
    ensures st.infos[id].Net() in Inserted(st, id, s).addrs && st.infos[id].Net() in st.addrs
    ensures Inserted(st, id, s).addrs[st.infos[id].Net()] == id && IsReferenced(st.infos, Inserted(st, id, s).infos, id)
  {
    hide Core, CollisionsOk;
    InsertKeeps(env, st, id, s, limbo, pending);
    InsertedEntry(env, st, id, s, limbo, pending);
    assert limbo - {id} == {};
    InsertDescends(st, id, s);
    IndexedByAddress(env, Inserted(st, id, s), id);
    KnownAddress(env, st, limbo, pending, id);
    CollisionsStay(env, st.infos, Inserted(st, id, s).infos, st.tried, st.tried, collisions, st.idCount);
  }

  /** The entry has one more reference and is otherwise as before, but for its place in the random order. */
  ghost predicate IsReferenced(infos: Infos, infos': Infos, id: int) {
    && id in infos && id in infos'
    && infos'[id] == infos[id].(refCount := infos[id].refCount + 1, randomPos := infos'[id].randomPos)
  }

  lemma InsertedEntry(env: Env, st: State, id: int, s: Slot, limbo: set<int>, pending: int)
    requires Core(env, st, limbo, pending) && id in st.infos && (s in st.table ==> st.table[s] != id)
    requires CanInsert(st, id, s)
    ensures IsReferenced(st.infos, Inserted(st, id, s).infos, id)
  {
    hide Core, Cleared;
    ClearKeeps(env, st, s, limbo, pending);
  }

  lemma InsertDescends(st: State, id: int, s: Slot)
    requires CanInsert(st, id, s)
    ensures Descends(st.infos, Inserted(st, id, s).infos) && Inserted(st, id, s).idCount == st.idCount
    ensures Inserted(st, id, s).tried == st.tried && Inserted(st, id, s).table == st.table[s := id]
  {
    ClearDescends(st, s);
    ClearTouches(st, s);
    RefillSlot(st.table, s, id);
  }

  lemma DeleteSettles(env: Env, st: State, id: int, collisions: set<int>)
    requires Core(env, st, {id}, 1) && CollisionsOk(env, st.infos, st.tried, collisions, st.idCount)
    ensures RandomOk(st.infos, st.order) && id in st.infos && !st.infos[id].inTried && st.infos[id].refCount == 0
    ensures Settled(env, Deleted(st, id), collisions)
    ensures Deleted(st, id).idCount == st.idCount && st.infos[id].Net() !in Deleted(st, id).addrs
  {
    assert RandomOk(st.infos, st.order) && id in st.infos && !st.infos[id].inTried && st.infos[id].refCount == 0;
    hide Core, CollisionsOk;
    DeleteKeeps(env, st, id, {id}, 1);
    DeleteTouches(st, id);
    assert {id} - {id} == {};
    CollisionsStay(env, st.infos, Deleted(st, id).infos, st.tried, st.tried, collisions, st.idCount);
  }

  lemma DeleteTouches(st: State, id: int)
    requires RandomOk(st.infos, st.order) && id in st.infos
    ensures var st' := Deleted(st, id);
            && Descends(st.infos, st'.infos) && st'.tried == st.tried && st'.idCount == st.idCount
            && st.infos[id].Net() !in st'.addrs
  {
    SwapMoves(st, st.infos[id].randomPos, |st.order| - 1);
  }

  lemma SwapSettles(env: Env, st: State, p1: int, p2: int, collisions: set<int>)
    requires Settled(env, st, collisions) && 0 <= p1 < |st.order| && 0 <= p2 < |st.order|
    ensures st.order[p1] in st.infos && st.order[p2] in st.infos && (p1 != p2 ==> st.order[p1] != st.order[p2])
    ensures Settled(env, Swapped(st, p1, p2), collisions)
    ensures OnlyMoved(st.infos, Swapped(st, p1, p2).infos)
  {
    assert st.order[p1] in st.infos && st.order[p2] in st.infos && (p1 != p2 ==> st.order[p1] != st.order[p2]);
    hide Core, CollisionsOk;
    var st' := Swapped(st, p1, p2);
    SwapKeeps(env, st, p1, p2, {}, 0);
    CollisionsStay(env, st.infos, st'.infos, st.tried, st.tried, collisions, st.idCount);
  }

  /** A collision that is resolved, or whose entry is gone, is dropped. */
  lemma DropSettles(env: Env, st: State, collisions: set<int>, id: int)
    requires Settled(env, st, collisions)
    ensures Settled(env, st, collisions - {id})
  {
    hide Core;
    if id in collisions {
      assert |collisions - {id}| == |collisions| - 1;
    } else {
      assert collisions - {id} == collisions;
    }
  }

  /** The slot a live collision waits for holds a tried entry. */
  lemma CollisionOccupied(env: Env, st: State, collisions: set<int>, id: int)
    requires Settled(env, st, collisions) && id in collisions && id in st.infos
    ensures var s := TriedSlot(env, st.infos[id].addr.service);
            s in st.tried && st.tried[s] in st.infos && st.infos[st.tried[s]].inTried
  {
    var n := st.tried[TriedSlot(env, st.infos[id].addr.service)];
    assert n in st.infos;
  }

  lemma OrderDistinct(env: Env, st: State)
    requires Core(env, st, {}, 0)
    ensures forall i, j :: 0 <= i < j < |st.order| ==> st.order[i] != st.order[j]
    ensures forall i :: 0 <= i < |st.order| ==> st.order[i] in st.infos
    ensures forall n :: n in st.infos ==> n in st.order
  {
    assert forall i :: 0 <= i < |st.order| ==> st.infos[st.order[i]].randomPos == i;
    assert forall n :: n in st.infos ==> st.order[st.infos[n].randomPos] == n;
  }

  /** The entries of a stretch of the random order that are good enough to hand out. */
  ghost function Picked(infos: Infos, order: seq<int>, now: int): seq<int> {
    if order == [] then []
    else
      var last := order[|order| - 1];
      var rest := Picked(infos, order[..|order| - 1], now);
      if last in infos && !infos[last].IsTerrible(now) then rest + [last] else rest
  }

  lemma NonePicked(infos: Infos, now: int)
    ensures Picked(infos, [], now) == []
  {
  }

  lemma PickedSnoc(infos: Infos, order: seq<int>, id: int, now: int)
    ensures Picked(infos, order + [id], now)
            == Picked(infos, order, now) + if id in infos && !infos[id].IsTerrible(now) then [id] else []
  {
    assert (order + [id])[..|order|] == order;
  }

  lemma {:induction false} PickedIsSelection(infos: Infos, order: seq<int>, now: int)
    requires forall i, j :: 0 <= i < j < |order| ==> order[i] != order[j]
    ensures forall n :: n in Picked(infos, order, now) <==> n in order && n in infos && !infos[n].IsTerrible(now)
    ensures var p := Picked(infos, order, now); forall i, j :: 0 <= i < j < |p| ==> p[i] != p[j]
  {
    if order != [] {
      var front, last := order[..|order| - 1], order[|order| - 1];
      PickedIsSelection(infos, front, now);
      PickedSnoc(infos, front, last, now);
      assert order == front + [last];
      assert last !in front;
      var rest := Picked(infos, front, now);
      assert forall i :: 0 <= i < |rest| ==> rest[i] in rest;
    }
  }

  /** The checks of `Check_` on one entry: 0 or the error code. */
  function EntryError(infos: Infos, addrs: map<NetAddr, int>, order: seq<int>, n: int): (err: int)
    requires n in infos
  {
    var info := infos[n];
    if info.inTried && info.lastSuccess == 0 then -1
    else if info.inTried && info.refCount != 0 then -2
    else if !info.inTried && !(0 <= info.refCount <= NEW_BUCKETS_PER_ADDRESS) then -3
    else if !info.inTried && info.refCount == 0 then -4
    else if (if info.Net() in addrs then addrs[info.Net()] else 0) != n then -5
    else if !(0 <= info.randomPos < |order|) || order[info.randomPos] != n then -14
    else if info.lastTry < 0 then -6
    else if info.lastSuccess < 0 then -8
    else 0
  }

  lemma EntriesPass(env: Env, st: State)
    requires Core(env, st, {}, 0)
    ensures forall n :: n in st.infos ==> EntryError(st.infos, st.addrs, st.order, n) in {0, -1, -6, -8}
    ensures env.positiveClocks ==> forall n :: n in st.infos ==> EntryError(st.infos, st.addrs, st.order, n) == 0
  {
    forall n | n in st.infos
      ensures EntryError(st.infos, st.addrs, st.order, n) in {0, -1, -6, -8}
      ensures env.positiveClocks ==> EntryError(st.infos, st.addrs, st.order, n) == 0
    {
      assert TimesFit(env, st.infos[n]);
      assert st.infos[n].Net() in st.addrs;
      assert 0 <= st.infos[n].randomPos < |st.order|;
    }
  }

  lemma CountersPass(env: Env, st: State)
    requires Core(env, st, {}, 0)
    ensures |st.order| == st.nTried + st.nNew
    ensures |TriedIds(st.infos)| == st.nTried && |NewIds(st.infos, {})| == st.nNew
  {
    assert TriedIds(st.infos) + NewIds(st.infos, {}) == st.infos.Keys;
    assert |TriedIds(st.infos) + NewIds(st.infos, {})| == |TriedIds(st.infos)| + |NewIds(st.infos, {})|;
  }

  // ----- What the scans of `Check_` have left to see ----------------------------------

  /** The slot comes before (n, i) in row order. */
  ghost predicate Before(s: Slot, n: int, i: int) {
    s.bucket < n || (s.bucket == n && s.pos < i)
  }

  ghost function Unseen(table: Table, id: int, n: int, i: int): set<Slot> {
    set s | s in table && table[s] == id && !Before(s, n, i)
  }

  lemma UnseenStep(table: Table, n: int, i: int)
    ensures Slot(n, i) in table ==>
              |Unseen(table, table[Slot(n, i)], n, i + 1)| == |Unseen(table, table[Slot(n, i)], n, i)| - 1
    ensures forall id {:trigger Unseen(table, id, n, i)} ::
              !(Slot(n, i) in table && table[Slot(n, i)] == id) ==>
                Unseen(table, id, n, i + 1) == Unseen(table, id, n, i)
  {
    var s := Slot(n, i);
    if s in table {
      assert s in Unseen(table, table[s], n, i);
      assert Unseen(table, table[s], n, i + 1) == Unseen(table, table[s], n, i) - {s};
    }
    forall id | !(s in table && table[s] == id)
      ensures Unseen(table, id, n, i + 1) == Unseen(table, id, n, i)
    {
      assert forall t :: t in Unseen(table, id, n, i) ==> t != s;
    }
  }

  /** At the end of a bucket the scan goes on with the next one. */
  lemma UnseenWrap(table: Table, id: int, n: int)
    requires forall s :: s in table ==> 0 <= s.pos < BUCKET_SIZE
    ensures Unseen(table, id, n, BUCKET_SIZE) == Unseen(table, id, n + 1, 0)
  {
  }

  /** The counts still to be worked off are the numbers of slots not seen yet. */
  ghost predicate CountsLeft(counts: map<int, int>, table: Table, n: int, i: int) {
    forall id :: (id in counts <==> |Unseen(table, id, n, i)| > 0)
                 && (id in counts ==> counts[id] == |Unseen(table, id, n, i)|)
  }

  ghost function CountedOff(counts: map<int, int>, id: int): map<int, int>
    requires id in counts
  {
    if counts[id] - 1 == 0 then counts - {id} else counts[id := counts[id] - 1]
  }

  /** Counting off a slot keeps the counts exact, or inexact; exact counts have something to count off. */
  lemma CountStep(counts: map<int, int>, table: Table, n: int, i: int)
    ensures Slot(n, i) !in table ==> (CountsLeft(counts, table, n, i) <==> CountsLeft(counts, table, n, i + 1))
    ensures Slot(n, i) in table ==>
              var id := table[Slot(n, i)];
              if id in counts then
                CountsLeft(counts, table, n, i) <==> CountsLeft(CountedOff(counts, id), table, n, i + 1)
              else !CountsLeft(counts, table, n, i)
  {
    hide Unseen;
    UnseenStep(table, n, i);
    if Slot(n, i) !in table {
      assert forall id :: Unseen(table, id, n, i + 1) == Unseen(table, id, n, i);
    } else {
      var id := table[Slot(n, i)];
      StillUnseen(table, n, i);
      assert forall m :: m != id ==> Unseen(table, m, n, i + 1) == Unseen(table, m, n, i);
      if id in counts {
        CountOffStep(counts, table, n, i, id);
      }
    }
  }

  lemma StillUnseen(table: Table, n: int, i: int)
    requires Slot(n, i) in table
    ensures |Unseen(table, table[Slot(n, i)], n, i)| > 0
  {
    assert Slot(n, i) in Unseen(table, table[Slot(n, i)], n, i);
  }

  lemma CountOffStep(counts: map<int, int>, table: Table, n: int, i: int, id: int)
    requires id in counts && |Unseen(table, id, n, i)| > 0
    requires |Unseen(table, id, n, i + 1)| == |Unseen(table, id, n, i)| - 1
    requires forall m :: m != id ==> Unseen(table, m, n, i + 1) == Unseen(table, m, n, i)
    ensures CountsLeft(counts, table, n, i) <==> CountsLeft(CountedOff(counts, id), table, n, i + 1)
  {
    hide Unseen;
    var counts' := CountedOff(counts, id);
    forall m
      ensures ((m in counts <==> |Unseen(table, m, n, i)| > 0)
               && (m in counts ==> counts[m] == |Unseen(table, m, n, i)|))
              <==> ((m in counts' <==> |Unseen(table, m, n, i + 1)| > 0)
                    && (m in counts' ==> counts'[m] == |Unseen(table, m, n, i + 1)|))
    {
    }
  }

  lemma CountWrap(counts: map<int, int>, table: Table, n: int)
    requires forall s :: s in table ==> 0 <= s.pos < BUCKET_SIZE
    ensures CountsLeft(counts, table, n, BUCKET_SIZE) <==> CountsLeft(counts, table, n + 1, 0)
  {
    forall id
      ensures Unseen(table, id, n, BUCKET_SIZE) == Unseen(table, id, n + 1, 0)
    {
      UnseenWrap(table, id, n);
    }
  }

  /** After the last bucket the counts are exact if and only if nothing is left of them. */
  lemma CountEnds(counts: map<int, int>, table: Table, buckets: int)
    requires forall s :: s in table ==> s.bucket < buckets
    ensures CountsLeft(counts, table, buckets, 0) <==> counts == map[]
  {
    forall id
      ensures Unseen(table, id, buckets, 0) == {}
    {
    }
    if CountsLeft(counts, table, buckets, 0) {
      assert forall id :: id !in counts;
    }
  }

  // ----- What `Check_` comes to ---------------------------------------------------------

  /** The slots seen so far hold entries that belong there. */
  ghost predicate TriedSeen(env: Env, infos: Infos, tried: Table, n: int, i: int) {
    forall s :: s in tried && Before(s, n, i) ==> tried[s] in infos && TriedSlot(env, infos[tried[s]].addr.service) == s
  }

  ghost predicate NewSeen(env: Env, infos: Infos, table: Table, n: int, i: int) {
    forall s :: s in table && Before(s, n, i) ==>
      table[s] in infos && NewSlotIn(env, infos[table[s]].addr.service, s.bucket) == s
  }

  ghost predicate TriedPlaced(env: Env, infos: Infos, tried: Table) {
    forall s :: s in tried ==> tried[s] in infos && TriedSlot(env, infos[tried[s]].addr.service) == s
  }

  ghost predicate NewPlaced(env: Env, infos: Infos, table: Table) {
    forall s :: s in table ==> table[s] in infos && NewSlotIn(env, infos[table[s]].addr.service, s.bucket) == s
  }

  lemma NoneSeen(env: Env, infos: Infos, t: Table)
    requires forall s :: s in t ==> s.bucket >= 0 && s.pos >= 0
    ensures TriedSeen(env, infos, t, 0, 0) && NewSeen(env, infos, t, 0, 0)
  {
  }

  lemma BeforeNext(s: Slot, n: int, i: int)
    ensures Before(s, n, i + 1) <==> Before(s, n, i) || s == Slot(n, i)
  {
  }

  lemma TriedSeenNext(env: Env, infos: Infos, t: Table, n: int, i: int)
    requires TriedSeen(env, infos, t, n, i)
    ensures var s := Slot(n, i);
            if s !in t || (t[s] in infos && TriedSlot(env, infos[t[s]].addr.service) == s)
            then TriedSeen(env, infos, t, n, i + 1) else !TriedPlaced(env, infos, t)
  {
    hide TriedSlot, Before;
    forall s: Slot ensures Before(s, n, i + 1) <==> Before(s, n, i) || s == Slot(n, i) {
      BeforeNext(s, n, i);
    }
  }

  lemma NewSeenNext(env: Env, infos: Infos, t: Table, n: int, i: int)
    requires NewSeen(env, infos, t, n, i)
    ensures var s := Slot(n, i);
            if s !in t || (t[s] in infos && NewSlotIn(env, infos[t[s]].addr.service, n) == s)
            then NewSeen(env, infos, t, n, i + 1) else !NewPlaced(env, infos, t)
  {
    hide NewSlotIn, Before;
    forall s: Slot ensures Before(s, n, i + 1) <==> Before(s, n, i) || s == Slot(n, i) {
      BeforeNext(s, n, i);
    }
  }

  lemma SeenWraps(env: Env, infos: Infos, t: Table, n: int)
    requires forall s :: s in t ==> 0 <= s.pos < BUCKET_SIZE
    ensures TriedSeen(env, infos, t, n, BUCKET_SIZE) ==> TriedSeen(env, infos, t, n + 1, 0)
    ensures NewSeen(env, infos, t, n, BUCKET_SIZE) ==> NewSeen(env, infos, t, n + 1, 0)
  {
    hide TriedSlot, NewSlotIn;
  }

  lemma AllSeen(env: Env, infos: Infos, t: Table, buckets: int)
    requires forall s :: s in t ==> s.bucket < buckets
    ensures TriedSeen(env, infos, t, buckets, 0) ==> TriedPlaced(env, infos, t)
    ensures NewSeen(env, infos, t, buckets, 0) ==> NewPlaced(env, infos, t)
  {
    hide TriedSlot, NewSlotIn;
  }

  lemma TriedSlotParts(env: Env, service: Service, n: int, i: int)
    ensures TriedSlot(env, service) == Slot(n, i) <==>
              TriedBucket(env, service) == n && BucketPosition(env, service, false, n) == i
  {
  }

  lemma NewSlotParts(env: Env, service: Service, n: int, i: int)
    ensures NewSlotIn(env, service, n) == Slot(n, i) <==> BucketPosition(env, service, true, n) == i
  {
  }

  /** Every one of these ids has as many slots as is said. */
  ghost predicate TriedCounted(infos: Infos, tried: Table) {
    forall id :: |SlotsOf(tried, id)| == if id in TriedIds(infos) then 1 else 0
  }

  ghost predicate NewCounted(infos: Infos, table: Table) {
    forall id :: (id in NewIds(infos, {}) <==> |SlotsOf(table, id)| > 0)
                 && (id in NewIds(infos, {}) ==> infos[id].refCount == |SlotsOf(table, id)|)
  }

  /** All tests of `Check_`. */
  ghost predicate Passes(env: Env, st: State) {
    && env.key != 0
    && |st.order| == st.nTried + st.nNew
    && (forall n :: n in st.infos ==> EntryError(st.infos, st.addrs, st.order, n) == 0)
    && |TriedIds(st.infos)| == st.nTried && |NewIds(st.infos, {})| == st.nNew
    && TriedPlaced(env, st.infos, st.tried) && TriedCounted(st.infos, st.tried)
    && NewPlaced(env, st.infos, st.table) && NewCounted(st.infos, st.table)
  }

  /** What `Check_` does not look at: addresses of no entry, ids out of range, and the address of entry 0,
      which a missing one is mistaken for. */
  ghost predicate Untested(st: State) {
    && (forall a :: a in st.addrs ==> st.addrs[a] in st.infos && st.infos[st.addrs[a]].Net() == a)
    && (0 in st.infos ==> st.infos[0].Net() in st.addrs)
    && IdsOk(st.infos, st.idCount)
  }

  lemma StartCounts(table: Table, counts: map<int, int>)
    requires forall s :: s in table ==> s.bucket >= 0 && s.pos >= 0
    ensures CountsLeft(counts, table, 0, 0) <==>
              forall id :: (id in counts <==> |SlotsOf(table, id)| > 0)
                           && (id in counts ==> counts[id] == |SlotsOf(table, id)|)
  {
    assert forall id :: Unseen(table, id, 0, 0) == SlotsOf(table, id);
  }

  lemma TriedCountsAre(infos: Infos, tried: Table, counts: map<int, int>)
    requires forall s :: s in tried ==> s.bucket >= 0 && s.pos >= 0
    requires counts.Keys == TriedIds(infos) && forall n :: n in counts ==> counts[n] == 1
    ensures CountsLeft(counts, tried, 0, 0) <==> TriedCounted(infos, tried)
  {
    hide CountsLeft, SlotsOf;
    StartCounts(tried, counts);
  }

  lemma NewCountsAre(infos: Infos, table: Table, counts: map<int, int>)
    requires forall s :: s in table ==> s.bucket >= 0 && s.pos >= 0
    requires counts.Keys == NewIds(infos, {}) && forall n :: n in counts ==> counts[n] == infos[n].refCount
    ensures CountsLeft(counts, table, 0, 0) <==> NewCounted(infos, table)
  {
    hide CountsLeft, SlotsOf;
    StartCounts(table, counts);
  }

  /** The positions of a set of entries, and how many there are. */
  lemma {:induction false} PositionsDiffer(infos: Infos, order: seq<int>, ids: set<int>) returns (positions: set<int>)
    requires ids <= infos.Keys
    requires forall n :: n in ids ==> 0 <= infos[n].randomPos < |order| && order[infos[n].randomPos] == n
    ensures |positions| == |ids| && forall p :: p in positions <==> exists n :: n in ids && infos[n].randomPos == p
    decreases |ids|
  {
    positions := {};
    if ids != {} {
      var n := Member(ids);
      var rest := PositionsDiffer(infos, order, ids - {n});
      assert infos[n].randomPos !in rest;
      positions := rest + {infos[n].randomPos};
      forall p ensures p in positions <==> exists m :: m in ids && infos[m].randomPos == p {
        if p in positions && p != infos[n].randomPos {
          var m :| m in ids - {n} && infos[m].randomPos == p;
          assert m in ids;
        }
      }
    }
  }

  lemma {:induction false} AllPositions(positions: set<int>, size: nat)
    requires |positions| == size && forall p :: p in positions ==> 0 <= p < size
    ensures forall p :: 0 <= p < size ==> p in positions
    decreases size
  {
    if size > 0 {
      if size - 1 in positions {
        AllPositions(positions - {size - 1}, size - 1);
        forall p | 0 <= p < size ensures p in positions {
          assert p < size - 1 ==> p in positions - {size - 1};
        }
      } else {
        var p := Member(positions);
        TooMany(positions, size - 1);
      }
    }
  }

  lemma {:induction false} TooMany(positions: set<int>, size: nat)
    requires forall p :: p in positions ==> 0 <= p < size
    ensures |positions| <= size
    decreases size
  {
    if size > 0 {
      TooMany(positions - {size - 1}, size - 1);
    } else if positions != {} {
      var p := Member(positions);
    }
  }

  /** As many positions as entries, and each entry at its own: all positions are taken. */
  lemma OrderIsInverse(infos: Infos, order: seq<int>)
    requires |order| == |infos|
    requires forall n :: n in infos ==> 0 <= infos[n].randomPos < |order| && order[infos[n].randomPos] == n
    ensures RandomOk(infos, order)
  {
    var positions := PositionsDiffer(infos, order, infos.Keys);
    assert |infos.Keys| == |infos|;
    AllPositions(positions, |order|);
    forall i | 0 <= i < |order| ensures order[i] in infos && infos[order[i]].randomPos == i {
      assert i in positions;
      var n :| n in infos.Keys && infos[n].randomPos == i;
    }
  }

  lemma EntryTests(env: Env, st: State, n: int)
    requires n in st.infos && EntryError(st.infos, st.addrs, st.order, n) == 0 && Untested(st)
    ensures st.infos[n].Net() in st.addrs && st.addrs[st.infos[n].Net()] == n
    ensures 0 <= st.infos[n].randomPos < |st.order| && st.order[st.infos[n].randomPos] == n
    ensures TimesFit(env, st.infos[n])
    ensures if st.infos[n].inTried then st.infos[n].refCount == 0
            else 1 <= st.infos[n].refCount <= NEW_BUCKETS_PER_ADDRESS
  {
  }

  /** The tests and what they do not look at make up the conditions: with positive clocks these hold if and
      only if both do. */
  lemma PassesExactly(env: Env, st: State)
    requires env.key != 0 && env.positiveClocks
    requires forall s :: s in st.table ==> 0 <= s.bucket < NEW_BUCKET_COUNT && s.pos >= 0
    requires forall s :: s in st.tried ==> s.bucket >= 0 && s.pos >= 0
    ensures Core(env, st, {}, 0) <==> Passes(env, st) && Untested(st)
  {
    if Core(env, st, {}, 0) {
      CorePasses(env, st);
    }
    if Passes(env, st) && Untested(st) {
      PassesCore(env, st);
    }
  }

  /** A state without entries whose index still has an address. */
  ghost function Leftover(a: NetAddr): State {
    State(map[], map[a := 0], [], map[], map[], 0, 0, 0)
  }

  /** It passes all tests, and is not consistent. */
  lemma PassesInconsistent(env: Env, a: NetAddr)
    requires env.key != 0 && env.positiveClocks
    ensures Passes(env, Leftover(a)) && !Core(env, Leftover(a), {}, 0)
  {
    var none := State(map[], map[], [], map[], map[], 0, 0, 0);
    NothingIsConsistent(env);
    PassesExactly(env, none);
    assert Passes(env, none);
    assert a in Leftover(a).addrs;
    assert !Untested(Leftover(a));
    PassesExactly(env, Leftover(a));
  }

  lemma CorePasses(env: Env, st: State)
    requires Core(env, st, {}, 0) && env.key != 0 && env.positiveClocks
    ensures Passes(env, st) && Untested(st)
  {
    EntriesPass(env, st);
    CountersPass(env, st);
    TriedCountsExact(env, st);
    NewCountsExact(env, st);
    PlacesExact(env, st);
    hide TriedCounted, NewCounted, TriedPlaced, NewPlaced, EntryError;
  }

  lemma PlacesExact(env: Env, st: State)
    requires Core(env, st, {}, 0)
    ensures TriedPlaced(env, st.infos, st.tried) && NewPlaced(env, st.infos, st.table)
  {
  }

  lemma TriedCountsExact(env: Env, st: State)
    requires Core(env, st, {}, 0)
    ensures TriedCounted(st.infos, st.tried)
  {
    forall id ensures |SlotsOf(st.tried, id)| == if id in TriedIds(st.infos) then 1 else 0 {
      if id in TriedIds(st.infos) {
        assert SlotsOf(st.tried, id) == {TriedSlot(env, st.infos[id].addr.service)};
      } else {
        assert SlotsOf(st.tried, id) == {};
      }
    }
  }

  lemma NewCountsExact(env: Env, st: State)
    requires Core(env, st, {}, 0)
    ensures NewCounted(st.infos, st.table)
  {
    forall id
      ensures id in NewIds(st.infos, {}) <==> |SlotsOf(st.table, id)| > 0
      ensures id in NewIds(st.infos, {}) ==> st.infos[id].refCount == |SlotsOf(st.table, id)|
    {
      if id !in NewIds(st.infos, {}) {
        assert SlotsOf(st.table, id) == {};
      }
    }
  }

  lemma PassesCore(env: Env, st: State)
    requires Passes(env, st) && Untested(st)
    requires forall s :: s in st.table ==> 0 <= s.bucket < NEW_BUCKET_COUNT
    ensures Core(env, st, {}, 0)
  {
    hide TriedSlot, NewSlotIn, EntryError, AddrOk, RandomOk, TimesOk, IdsOk, TriedOk, NewOk, TriedCounted, NewCounted,
         TriedPlaced, NewPlaced, TriedIds, NewIds, Untested;
    EntriesTested(env, st);
    IdsInRange(st);
    AllIds(st.infos);
    OrderIsInverse(st.infos, st.order);
    TriedFromCounts(env, st.infos, st.tried);
    NewFromCounts(env, st.infos, st.table);
  }

  lemma IdsInRange(st: State)
    requires Untested(st)
    ensures IdsOk(st.infos, st.idCount)
  {
  }

  lemma EntriesTested(env: Env, st: State)
    requires Untested(st) && forall n :: n in st.infos ==> EntryError(st.infos, st.addrs, st.order, n) == 0
    ensures AddrOk(st.infos, st.addrs) && TimesOk(env, st.infos)
    ensures forall n :: n in st.infos ==>
              0 <= st.infos[n].randomPos < |st.order| && st.order[st.infos[n].randomPos] == n
    ensures forall n :: n in st.infos && st.infos[n].inTried ==> st.infos[n].refCount == 0
    ensures forall n :: n in st.infos && !st.infos[n].inTried ==> 1 <= st.infos[n].refCount <= NEW_BUCKETS_PER_ADDRESS
  {
    hide EntryError, TimesFit, IdsOk;
    forall n | n in st.infos
      ensures st.infos[n].Net() in st.addrs && st.addrs[st.infos[n].Net()] == n && TimesFit(env, st.infos[n])
      ensures 0 <= st.infos[n].randomPos < |st.order| && st.order[st.infos[n].randomPos] == n
      ensures if st.infos[n].inTried then st.infos[n].refCount == 0
              else 1 <= st.infos[n].refCount <= NEW_BUCKETS_PER_ADDRESS
    {
      EntryTests(env, st, n);
    }
  }

  lemma AllIds(infos: Infos)
    ensures |TriedIds(infos)| + |NewIds(infos, {})| == |infos|
  {
    assert TriedIds(infos) + NewIds(infos, {}) == infos.Keys;
    assert |TriedIds(infos) + NewIds(infos, {})| == |TriedIds(infos)| + |NewIds(infos, {})|;
    assert |infos.Keys| == |infos|;
  }

  lemma TriedFromCounts(env: Env, infos: Infos, tried: Table)
    requires TriedPlaced(env, infos, tried) && TriedCounted(infos, tried)
    requires forall n :: n in infos && infos[n].inTried ==> infos[n].refCount == 0
    ensures TriedOk(env, infos, tried)
  {
    hide TriedSlot;
    forall s | s in tried ensures infos[tried[s]].inTried {
      assert s in SlotsOf(tried, tried[s]);
      assert tried[s] in TriedIds(infos);
    }
    forall n | n in infos && infos[n].inTried
      ensures TriedSlot(env, infos[n].addr.service) in tried && tried[TriedSlot(env, infos[n].addr.service)] == n
    {
      assert n in TriedIds(infos);
      var s := Member(SlotsOf(tried, n));
    }
  }

  lemma NewFromCounts(env: Env, infos: Infos, table: Table)
    requires NewPlaced(env, infos, table) && NewCounted(infos, table)
    requires forall s :: s in table ==> 0 <= s.bucket < NEW_BUCKET_COUNT
    requires forall n :: n in infos && !infos[n].inTried ==> 1 <= infos[n].refCount <= NEW_BUCKETS_PER_ADDRESS
    ensures NewOk(env, infos, table, {})
  {
    hide NewSlotIn;
    forall s | s in table ensures !infos[table[s]].inTried {
      assert s in SlotsOf(table, table[s]);
      assert table[s] in NewIds(infos, {});
    }
    forall n | n in infos && !infos[n].inTried ensures infos[n].refCount == |SlotsOf(table, n)| {
      assert n in NewIds(infos, {});
    }
  }

  // ----- Bucket arrays ---------------------------------------------------------------

  predicate InRange(a: array2<int>, s: Slot) {
    0 <= s.bucket < a.Length0 && 0 <= s.pos < a.Length1
  }

  /** `t` holds the occupied slots of a bucket array, where -1 marks a free one. */
  ghost predicate IsTableOf(t: Table, a: array2<int>)
    reads a
  {
    && (forall s :: s in t <==> InRange(a, s) && a[s.bucket, s.pos] != -1)
    && (forall s :: s in t ==> t[s] == a[s.bucket, s.pos])
  }

  lemma TableExists(a: array2<int>)
    ensures exists t :: IsTableOf(t, a)
  {
    var t := map b, p | 0 <= b < a.Length0 && 0 <= p < a.Length1 && a[b, p] != -1 :: Slot(b, p) := a[b, p];
    assert IsTableOf(t, a);
  }

  ghost function Occupied(a: array2<int>): Table
    reads a
  {
    TableExists(a);
    var t :| IsTableOf(t, a);
    t
  }

  lemma OccupiedIs(a: array2<int>, s: Slot)
    requires InRange(a, s)
    ensures s in Occupied(a) <==> a[s.bucket, s.pos] != -1
    ensures s in Occupied(a) ==> Occupied(a)[s] == a[s.bucket, s.pos]
  {
  }

  lemma OccupiedInRange(a: array2<int>)
    ensures forall s :: s in Occupied(a) ==> InRange(a, s)
  {
  }

  method SetSlot(a: array2<int>, s: Slot, id: int)
    requires 0 <= s.bucket < a.Length0 && 0 <= s.pos < a.Length1
    modifies a
    ensures Occupied(a) == if id == -1 then old(Occupied(a)) - {s} else old(Occupied(a))[s := id]
  {
    a[s.bucket, s.pos] := id;
  }
}
