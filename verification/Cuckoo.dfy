/** The cuckoo cache of verified signatures and scripts. */
module Cuckoo {
  import opened Bounds
  import opened PackedBits
  import opened Words
  import opened Wrappers

  const INVALID := 0xFFFF_FFFF

  // ----- Slots ----------------------------------------------------------------------------------------

  /** What the cache holds, slot by slot: elements, flags of the slots that may be overwritten, and
      flags of the elements inserted in the current epoch. */
  datatype Slots<E> = Slots(table: seq<E>, free: seq<bv8>, epochs: seq<bool>)
  {
    ghost predicate Sized() {
      |table| == |epochs| && |table| <= 8 * |free|
    }

    /** The slot is not free, and its element is of the current epoch. */
    ghost predicate Live(i: nat)
      requires Sized() && i < |table|
    {
      epochs[i] && !BitAt(free, i)
    }

    ghost function Holds(i: nat): Option<E>
      requires Sized() && i < |table|
    {
      if BitAt(free, i) then None else Some(table[i])
    }
  }

  ghost function LiveFlags<E>(s: Slots<E>): (r: seq<bool>)
    requires s.Sized()
    ensures |r| == |s.table|
  {
    seq(|s.table|, i requires 0 <= i < |s.table| => s.Live(i))
  }

  /** The elements that are to be kept, slot by slot. */
  ghost function Held<E>(s: Slots<E>): (r: seq<Option<E>>)
    requires s.Sized()
    ensures |r| == |s.table|
  {
    seq(|s.table|, i requires 0 <= i < |s.table| => s.Holds(i))
  }

  ghost function LiveCount<E>(s: Slots<E>): nat
    requires s.Sized()
  {
    multiset(LiveFlags(s))[true]
  }

  ghost function Kept<E>(s: Slots<E>): multiset<Option<E>>
    requires s.Sized()
  {
    multiset(Held(s))
  }

  /** The two agree on every slot but one. */
  ghost predicate SameBut<E>(s: Slots<E>, s': Slots<E>, i: nat) {
    && s.Sized() && s'.Sized() && |s.table| == |s'.table|
    && forall j :: 0 <= j < |s.table| && j != i ==> s.Live(j) == s'.Live(j) && s.Holds(j) == s'.Holds(j)
  }

  ghost function One(b: bool): nat { if b then 1 else 0 }

  lemma Replaced<T>(q: seq<T>, q': seq<T>, i: nat)
    requires |q| == |q'| && i < |q| && forall j :: 0 <= j < |q| && j != i ==> q'[j] == q[j]
    ensures multiset(q') + multiset{q[i]} == multiset(q) + multiset{q'[i]}
  {
    assert q' == q[i := q'[i]];
  }

  /** Changing one slot changes the counts by that slot. */
  lemma ChangeOne<E>(s: Slots<E>, s': Slots<E>, i: nat)
    requires SameBut(s, s', i) && i < |s.table|
    ensures LiveCount(s') + One(s.Live(i)) == LiveCount(s) + One(s'.Live(i))
    ensures Kept(s') + multiset{s.Holds(i)} == Kept(s) + multiset{s'.Holds(i)}
  {
    hide Slots.Live, Slots.Holds;
    Replaced(LiveFlags(s), LiveFlags(s'), i);
    Replaced(Held(s), Held(s'), i);
    CountOne(multiset(LiveFlags(s)), multiset(LiveFlags(s')), s.Live(i), s'.Live(i));
  }

  lemma CountOne(m: multiset<bool>, m': multiset<bool>, b: bool, b': bool)
    requires m' + multiset{b} == m + multiset{b'}
    ensures m'[true] + One(b) == m[true] + One(b')
  {
    assert (m' + multiset{b})[true] == m'[true] + One(b);
    assert (m + multiset{b'})[true] == m[true] + One(b');
  }

  // ----- Positions ------------------------------------------------------------------------------------

  type HashFunctions<!E> = (nat, E) -> Word

  /** The eight positions of an element: hashes scaled down to the table. */
  function Locs<E>(hash: HashFunctions<E>, size: nat, e: E): (locs: seq<nat>)
    requires 0 < size
    ensures |locs| == 8 && forall k :: 0 <= k < 8 ==> locs[k] < size
  {
    [Reduce(hash(0, e), size), Reduce(hash(1, e), size), Reduce(hash(2, e), size), Reduce(hash(3, e), size),
     Reduce(hash(4, e), size), Reduce(hash(5, e), size), Reduce(hash(6, e), size), Reduce(hash(7, e), size)]
  }

  /** Where a value is first found, or the end. */
  function IndexOf(locs: seq<nat>, loc: nat): (k: nat)
    ensures k <= |locs| && (k == |locs| <==> loc !in locs) && (k < |locs| ==> locs[k] == loc)
  {
    if locs == [] then 0 else if locs[0] == loc then 0 else 1 + IndexOf(locs[1..], loc)
  }

  /** The position to exchange with: the one after the last, or the second one at first. */
  function NextLoc(locs: seq<nat>, last: nat): (loc: nat)
    requires |locs| == 8
    ensures loc in locs
    ensures last !in locs ==> loc == locs[1]
    ensures forall k :: 0 <= k < 8 && locs[k] == last && last !in locs[..k] ==> loc == locs[(k + 1) % 8]
  {
    FirstIndex(locs, last);
    locs[(1 + IndexOf(locs, last)) % 8]
  }

  lemma {:induction false} FirstIndex(locs: seq<nat>, loc: nat)
    ensures loc !in locs[..IndexOf(locs, loc)]
    ensures forall k :: 0 <= k < |locs| && locs[k] == loc && loc !in locs[..k] ==> k == IndexOf(locs, loc)
  {
    var i := IndexOf(locs, loc);
    if locs != [] && locs[0] != loc {
      FirstIndex(locs[1..], loc);
      assert locs[..i] == [locs[0]] + locs[1..][..i - 1];
    }
    assert forall k :: 0 <= k < |locs| && locs[k] == loc ==> i <= k;
    assert forall k :: i < k < |locs| ==> loc in locs[..k];
  }

  /** The element that was just put in is not moved again, if and only if the position after its first
      position here is another one. */
  lemma MovesOn(locs: seq<nat>, last: nat)
    requires |locs| == 8
    ensures NextLoc(locs, last) != last <==> last in locs ==> locs[(IndexOf(locs, last) + 1) % 8] != last
  {
    FirstIndex(locs, last);
  }

  /** It always moves on if the positions differ, and does not if the first two are the same. */
  lemma MovesOnIfDistinct(locs: seq<nat>, last: nat)
    requires |locs| == 8
    ensures (forall i, j :: 0 <= i < j < 8 ==> locs[i] != locs[j]) ==> NextLoc(locs, last) != last
    ensures locs[0] == locs[1] == last ==> NextLoc(locs, last) == last
  {
    MovesOn(locs, last);
  }

  lemma StaysPut()
    ensures NextLoc([5, 5, 0, 1, 2, 3, 4, 6], 5) == 5
  {
    MovesOnIfDistinct([5, 5, 0, 1, 2, 3, 4, 6], 5);
  }

  ghost predicate NoneFree(free: seq<bv8>, locs: seq<nat>) {
    forall k :: 0 <= k < |locs| ==> locs[k] < 8 * |free| && !BitAt(free, locs[k])
  }

  /** Every element that is to be kept is at one of its own positions. */
  ghost predicate Homed<E>(s: Slots<E>, hash: HashFunctions<E>, size: nat)
    requires s.Sized() && 0 < size
  {
    forall i :: 0 <= i < |s.table| && !BitAt(s.free, i) ==> i in Locs(hash, size, s.table[i])
  }

  /** The element is at one of its own positions. */
  ghost predicate Present<E>(s: Slots<E>, hash: HashFunctions<E>, size: nat, e: E)
    requires 0 < size == |s.table|
  {
    exists k :: 0 <= k < 8 && s.table[Locs(hash, size, e)[k]] == e
  }

  lemma PresentInTable<E>(s: Slots<E>, s': Slots<E>, hash: HashFunctions<E>, size: nat, e: E)
    requires 0 < size == |s.table| && s'.table == s.table
    ensures Present(s, hash, size, e) == Present(s', hash, size, e)
  {
  }

  /** Every element that is to be kept is found. */
  lemma KeptIsPresent<E>(s: Slots<E>, hash: HashFunctions<E>, size: nat, e: E)
    requires s.Sized() && 0 < size == |s.table| && Homed(s, hash, size) && Some(e) in Kept(s)
    ensures Present(s, hash, size, e)
  {
    assert Some(e) in Held(s);
    var i :| 0 <= i < |s.table| && Held(s)[i] == Some(e);
    assert s.table[i] == e && i in Locs(hash, size, e);
  }

  // ----- Steps ------------------------------------------------------------------------------------------

  /** An element put into a free slot. */
  function Placed<E>(s: Slots<E>, loc: nat, e: E, epoch: bool): (s': Slots<E>)
    requires loc < |s.table| && loc < |s.epochs| && loc < 8 * |s.free|
  {
    Slots(s.table[loc := e], ClearBit(s.free, loc), s.epochs[loc := epoch])
  }

  /** Putting an element at one of its own positions keeps the rest as it was. */
  lemma PlacedOne<E>(s: Slots<E>, loc: nat, e: E, epoch: bool)
    requires s.Sized() && loc < |s.table|
    ensures var s' := Placed(s, loc, e, epoch);
            && s'.Sized() && SameBut(s, s', loc)
            && s'.Live(loc) == epoch && s'.Holds(loc) == Some(e)
            && LiveCount(s') + One(s.Live(loc)) == LiveCount(s) + One(epoch)
            && Kept(s') + multiset{s.Holds(loc)} == Kept(s) + multiset{Some(e)}
            && multiset(s'.table) + multiset{s.table[loc]} == multiset(s.table) + multiset{e}
  {
    hide LiveCount, Kept, BitAt, ClearBit;
    var s' := Placed(s, loc, e, epoch);
    forall j | 0 <= j < |s.table| ensures BitAt(s'.free, j) <==> j != loc && BitAt(s.free, j) {
      BitsExact(s.free, loc, j);
    }
    ChangeOne(s, s', loc);
    Replaced(s.table, s'.table, loc);
  }

  lemma PlacedHomed<E>(s: Slots<E>, hash: HashFunctions<E>, size: nat, loc: nat, e: E, epoch: bool)
    requires s.Sized() && 0 < size && loc < |s.table| && Homed(s, hash, size) && loc in Locs(hash, size, e)
    ensures Placed(s, loc, e, epoch).Sized() && Homed(Placed(s, loc, e, epoch), hash, size)
  {
    hide BitAt, ClearBit, Locs;
    var s' := Placed(s, loc, e, epoch);
    forall j | 0 <= j < |s.table| && !BitAt(s'.free, j) ensures j in Locs(hash, size, s'.table[j]) {
      BitsExact(s.free, loc, j);
    }
  }

  /** An element exchanged with the one in a slot that is not free. */
  function Swapped<E>(s: Slots<E>, loc: nat, e: E, epoch: bool): (s': Slots<E>)
    requires loc < |s.table| && loc < |s.epochs|
  {
    Slots(s.table[loc := e], s.free, s.epochs[loc := epoch])
  }

  lemma SwappedOne<E>(s: Slots<E>, loc: nat, e: E, epoch: bool)
    requires s.Sized() && loc < |s.table| && !BitAt(s.free, loc)
    ensures var s' := Swapped(s, loc, e, epoch);
            && s'.Sized()
            && LiveCount(s') + One(s.epochs[loc]) == LiveCount(s) + One(epoch)
            && Kept(s') + multiset{Some(s.table[loc])} == Kept(s) + multiset{Some(e)}
            && multiset(s'.table) + multiset{s.table[loc]} == multiset(s.table) + multiset{e}
  {
    hide LiveCount, Kept, BitAt;
    var s' := Swapped(s, loc, e, epoch);
    ChangeOne(s, s', loc);
    Replaced(s.table, s'.table, loc);
  }

  // ----- Epochs -----------------------------------------------------------------------------------------

  /** The old epoch is freed and the current one becomes the old one. */
  ghost predicate IsAged<E>(s: Slots<E>, s': Slots<E>) {
    && s.Sized() && s'.Sized() && s'.table == s.table && |s'.free| == |s.free|
    && forall i :: 0 <= i < |s.table| ==>
         !s'.epochs[i] && (BitAt(s'.free, i) <==> BitAt(s.free, i) || !s.epochs[i])
  }

  lemma AgedNoneLive<E>(s: Slots<E>, s': Slots<E>)
    requires IsAged(s, s')
    ensures LiveCount(s') == 0
  {
    hide BitAt;
    assert forall i :: 0 <= i < |s'.table| ==> !LiveFlags(s')[i];
    assert true !in LiveFlags(s');
  }

  /** The most that the live elements of an epoch and the inserts until the next scan add up to. */
  function Bound(epochSize: nat): nat {
    epochSize + Max(1, epochSize / 16)
  }

  /** The slots and the countdown after the check before an insert. */
  ghost predicate IsChecked<E>(s: Slots<E>, counter: nat, epochSize: nat, s': Slots<E>, counter': nat)
    requires s.Sized()
  {
    if counter != 0 then s' == s && counter' == counter - 1
    else if LiveCount(s) >= epochSize then IsAged(s, s') && counter' == epochSize
    else s' == s && counter' == Max(1, Max(epochSize / 16, epochSize - LiveCount(s)))
  }

  /** After the check there is room for one more live element. */
  lemma CheckedFits<E>(s: Slots<E>, counter: nat, epochSize: nat, s': Slots<E>, counter': nat)
    requires s.Sized() && epochSize > 0 && LiveCount(s) + counter <= Bound(epochSize)
    requires IsChecked(s, counter, epochSize, s', counter')
    ensures s'.Sized() && LiveCount(s') + counter' + 1 <= Bound(epochSize)
  {
    hide LiveCount, IsAged;
    if counter == 0 && LiveCount(s) >= epochSize {
      AgedSized(s, s');
      AgedNoneLive(s, s');
    }
  }

  lemma AgedSized<E>(s: Slots<E>, s': Slots<E>)
    requires IsAged(s, s')
    ensures s'.Sized() && s'.table == s.table
  {
  }

  lemma AgedHomed<E>(s: Slots<E>, s': Slots<E>, hash: HashFunctions<E>, size: nat)
    requires IsAged(s, s') && 0 < size && Homed(s, hash, size)
    ensures Homed(s', hash, size)
  {
    hide BitAt, Locs;
  }

  // ----- Inserting --------------------------------------------------------------------------------------

  /** How an insert ended: the element was there, it took a free slot whose stale element is gone,
      or an element was left over and dropped. */
  datatype Outcome<E> = Found(at: nat) | Filled(stale: E) | Dropped(last: E)

  /** Nothing but the element in hand is missing from the slots. */
  ghost predicate InHand<E>(s: Slots<E>, e0: E, s': Slots<E>, e: E, epoch: bool) {
    && s.Sized() && s'.Sized() && |s'.table| == |s.table|
    && multiset(s'.table) + multiset{e} == multiset(s.table) + multiset{e0}
    && Kept(s') + multiset{Some(e)} == Kept(s) + multiset{Some(e0)}
    && LiveCount(s') + One(epoch) == LiveCount(s) + 1
  }

  /** What an insert does to the slots. */
  ghost predicate Inserted<E>(s: Slots<E>, e: E, s': Slots<E>, outcome: Outcome<E>) {
    && s.Sized() && s'.Sized() && |s'.table| == |s.table| && LiveCount(s') <= LiveCount(s) + 1
    && match outcome
       case Found(at) =>
         && at < |s.table| && s.table[at] == e && s'.table == s.table && SameBut(s, s', at)
         && s'.Live(at) && s'.Holds(at) == Some(e)
       case Filled(stale) =>
         && multiset(s'.table) + multiset{stale} == multiset(s.table) + multiset{e}
         && Kept(s') + multiset{None} == Kept(s) + multiset{Some(e)}
       case Dropped(last) =>
         && multiset(s'.table) + multiset{last} == multiset(s.table) + multiset{e}
         && Kept(s') + multiset{Some(last)} == Kept(s) + multiset{Some(e)}
  }

  lemma FoundStep<E>(s: Slots<E>, e: E, loc: nat)
    requires s.Sized() && loc < |s.table| && s.table[loc] == e
    ensures Placed(s, loc, e, true).Sized() && Inserted(s, e, Placed(s, loc, e, true), Found(loc))
  {
    hide LiveCount, Kept, BitAt, ClearBit;
    PlacedOne(s, loc, e, true);
  }

  lemma FillStep<E>(s: Slots<E>, e0: E, s1: Slots<E>, e: E, epoch: bool, loc: nat)
    requires InHand(s, e0, s1, e, epoch) && loc < |s1.table| && BitAt(s1.free, loc)
    ensures Placed(s1, loc, e, epoch).Sized()
            && Inserted(s, e0, Placed(s1, loc, e, epoch), Filled(s1.table[loc]))
  {
    hide LiveCount, Kept, ClearBit, BitAt;
    PlacedOne(s1, loc, e, epoch);
    var s2 := Placed(s1, loc, e, epoch);
    assert s1.Holds(loc) == None && !s1.Live(loc);
  }

  lemma SwapStep<E>(s: Slots<E>, e0: E, s1: Slots<E>, e: E, epoch: bool, loc: nat)
    requires InHand(s, e0, s1, e, epoch) && loc < |s1.table| && !BitAt(s1.free, loc)
    ensures Swapped(s1, loc, e, epoch).Sized()
            && InHand(s, e0, Swapped(s1, loc, e, epoch), s1.table[loc], s1.epochs[loc])
  {
    hide LiveCount, Kept, BitAt;
    SwappedOne(s1, loc, e, epoch);
  }

  lemma SwapHomed<E>(s: Slots<E>, hash: HashFunctions<E>, size: nat, loc: nat, e: E, epoch: bool)
    requires s.Sized() && 0 < size && loc < |s.table| && Homed(s, hash, size) && loc in Locs(hash, size, e)
    ensures Swapped(s, loc, e, epoch).Sized() && Homed(Swapped(s, loc, e, epoch), hash, size)
  {
    hide BitAt, Locs;
  }

  /** Unless it is itself the one dropped, an inserted element is to be kept, and so is every
      element that was and is not the one dropped. */
  lemma InsertedKeeps<E>(s: Slots<E>, e: E, s': Slots<E>, outcome: Outcome<E>, x: E)
    requires Inserted(s, e, s', outcome) && outcome != Dropped(x)
    requires x == e || Some(x) in Kept(s)
    ensures Some(x) in Kept(s')
  {
    hide LiveCount, BitAt, Slots.Live;
    match outcome
    case Found(at) =>
      assert Held(s')[at] == Some(e);
      if x != e {
        assert Some(x) in Held(s);
        var i :| 0 <= i < |s.table| && Held(s)[i] == Some(x);
        assert s.table[i] == x;
        assert Held(s')[i] == Some(x);
      }
    case Filled(_) =>
      assert Some(x) in Kept(s') + multiset{None};
    case Dropped(last) =>
      assert Some(x) in Kept(s') + multiset{Some(last)};
  }

  class Cache<E(==)> {
    const hash: HashFunctions<E>
    const size: nat
    const epochSize: nat
    const depthLimit: nat

    var table: seq<E>
    var collectionFlags: seq<bv8>
    var epochFlags: seq<bool>
    var epochHeuristicCounter: nat

    ghost function Now(): Slots<E>
      reads this
    {
      Slots(table, collectionFlags, epochFlags)
    }

    ghost predicate Valid()
      reads this
    {
      && 0 < size <= INVALID && 0 < epochSize && |table| == size && Now().Sized()
      && Homed(Now(), hash, size)
      && LiveCount(Now()) + epochHeuristicCounter <= Bound(epochSize)
    }

    /** An empty cache: every slot is free. */
    constructor (newSize: nat, depthLimit: nat, blank: E, hash: HashFunctions<E>)
      requires newSize <= INVALID
      ensures Valid() && size == Max(2, newSize) && this.hash == hash && this.depthLimit == depthLimit
      ensures forall e :: Some(e) !in Kept(Now())
    {
      this.hash, this.depthLimit := hash, depthLimit;
      var n := Max(2, newSize);
      size := n;
      table := seq(n, _ => blank);
      collectionFlags := seq((n + 7) / 8, _ => 0xFF);
      epochFlags := seq(n, _ => false);
      epochSize := Max(1, (45 * n % BASE) / 100);
      epochHeuristicCounter := Max(1, (45 * n % BASE) / 100);
      new;
      forall i | 0 <= i < size ensures BitAt(collectionFlags, i) {
        OneBit(0, 0, i % 8);
      }
      hide BitAt, Locs;
      assert forall i :: 0 <= i < size ==> Held(Now())[i] == None && !LiveFlags(Now())[i];
      assert true !in LiveFlags(Now());
    }

    /** Counts down to the next scan; a scan that finds the epoch full ages it. */
    method EpochCheck()
      requires Valid()
      modifies `collectionFlags, `epochFlags, `epochHeuristicCounter
      ensures Now().Sized() && |table| == size
      ensures IsChecked(old(Now()), old(epochHeuristicCounter), epochSize, Now(), epochHeuristicCounter)
    {
      hide BitAt, SetBit, Locs, LiveCount;
      if epochHeuristicCounter != 0 {
        epochHeuristicCounter := epochHeuristicCounter - 1;
        return;
      }
      var unused := CountLive();
      if unused >= epochSize {
        Age();
        epochHeuristicCounter := epochSize;
      } else {
        epochHeuristicCounter := Max(1, Max(epochSize / 16, epochSize - unused));
      }
    }

    method CountLive() returns (count: nat)
      requires Now().Sized() && |table| == size
      ensures count == LiveCount(Now())
    {
      hide BitAt;
      count := 0;
      ghost var flags := LiveFlags(Now());
      for i := 0 to size
        invariant count == multiset(flags[..i])[true]
      {
        assert flags[..i + 1] == flags[..i] + [flags[i]];
        if epochFlags[i] && !BitAt(collectionFlags, i) {
          count := count + 1;
        }
      }
      assert flags[..size] == flags;
    }

    method Age()
      requires Now().Sized() && |table| == size
      modifies `collectionFlags, `epochFlags
      ensures IsAged(old(Now()), Now())
    {
      hide BitAt, SetBit;
      ghost var s := Now();
      for i := 0 to size
        invariant Now().Sized() && |table| == size && |collectionFlags| == |s.free|
        invariant forall j :: 0 <= j < i ==>
                    !epochFlags[j] && (BitAt(collectionFlags, j) <==> BitAt(s.free, j) || !s.epochs[j])
        invariant forall j :: i <= j < size ==>
                    epochFlags[j] == s.epochs[j] && (BitAt(collectionFlags, j) <==> BitAt(s.free, j))
      {
        if epochFlags[i] {
          epochFlags := epochFlags[i := false];
        } else {
          forall j | 0 <= j < size
            ensures BitAt(SetBit(collectionFlags, i), j) <==> i == j || BitAt(collectionFlags, j)
          {
            BitsExact(collectionFlags, i, j);
          }
          collectionFlags := SetBit(collectionFlags, i);
        }
      }
    }

    /** The position of an element equal to `e` among its own positions, if any. */
    method Find(e: E) returns (found: bool, loc: nat)
      requires 0 < size == |table|
      ensures found <==> Present(Now(), hash, size, e)
      ensures found ==> loc < size && table[loc] == e && loc in Locs(hash, size, e)
    {
      hide BitAt, LiveCount, Homed, Locs;
      var locs := Locs(hash, size, e);
      for k := 0 to 8
        invariant forall j :: 0 <= j < k ==> table[locs[j]] != e
      {
        if table[locs[k]] == e {
          return true, locs[k];
        }
      }
      return false, 0;
    }

    /** Whether the element is in the cache; on request its slot is freed, and nothing else. */
    method Contains(e: E, erase: bool) returns (found: bool, ghost loc: nat)
      requires Valid()
      modifies `collectionFlags
      ensures Valid() && found == old(Present(Now(), hash, size, e)) == Present(Now(), hash, size, e)
      ensures !erase || !found ==> Now() == old(Now())
      ensures erase && found ==> loc in Locs(hash, size, e) && table[loc] == e && IsFreed(old(Now()), Now(), loc)
      ensures forall x :: x != e && old(Some(x) in Kept(Now())) ==> Some(x) in Kept(Now())
    {
      hide BitAt, SetBit, LiveCount, Homed, Locs, IsFreed, Kept;
      var at;
      found, at := Find(e);
      loc := at;
      if found && erase {
        ghost var s := Now();
        FreedOne(s, hash, size, at);
        collectionFlags := SetBit(collectionFlags, at);
        forall x | x != e && Some(x) in Kept(s) ensures Some(x) in Kept(Now()) {
          OthersKept(s, Now(), at, x);
        }
      }
    }

    /** A free position of an element, if any. */
    method FindFree(e: E) returns (found: bool, loc: nat)
      requires 0 < size == |table| && Now().Sized()
      ensures loc < size
      ensures found ==> loc in Locs(hash, size, e) && BitAt(collectionFlags, loc)
      ensures !found ==> NoneFree(collectionFlags, Locs(hash, size, e))
    {
      hide BitAt, Locs;
      var locs := Locs(hash, size, e);
      for k := 0 to 8
        invariant forall j :: 0 <= j < k ==> !BitAt(collectionFlags, locs[j])
      {
        if BitAt(collectionFlags, locs[k]) {
          return true, locs[k];
        }
      }
      return false, 0;
    }

    /** Inserts an element, exchanging elements along the way while no slot is free. */
    method Insert(e0: E) returns (ghost checked: Slots<E>, ghost outcome: Outcome<E>)
      requires Valid()
      modifies this
      ensures Valid()
      ensures IsChecked(old(Now()), old(epochHeuristicCounter), epochSize, checked, epochHeuristicCounter)
      ensures Inserted(checked, e0, Now(), outcome)
      ensures outcome.Found? <==> old(Present(Now(), hash, size, e0))
      ensures outcome.Dropped? && depthLimit > 0 ==> NoneFree(checked.free, Locs(hash, size, e0))
      ensures forall x :: outcome != Dropped(x) && (x == e0 || Some(x) in Kept(checked)) ==>
                Present(Now(), hash, size, x)
    {
      hide BitAt, ClearBit, LiveCount, Kept, Locs, Homed, IsChecked, Inserted, InHand, NextLoc, Bound, Present;
      ghost var was, counter := Now(), epochHeuristicCounter;
      EpochCheck();
      checked := Now();
      PresentInTable(was, checked, hash, size, e0);
      CheckedFits(was, counter, epochSize, checked, epochHeuristicCounter);
      CheckedHomed(was, counter, epochSize, checked, epochHeuristicCounter, hash, size);
      outcome := Put(e0);
      InsertedFits(checked, e0, Now(), outcome);
      forall x | outcome != Dropped(x) && (x == e0 || Some(x) in Kept(checked)) ensures Present(Now(), hash, size, x) {
        InsertedKeeps(checked, e0, Now(), outcome, x);
        KeptIsPresent(Now(), hash, size, x);
      }
    }

    /** Puts an element into the slots. */
    method Put(e0: E) returns (ghost outcome: Outcome<E>)
      requires 0 < size == |table| && size <= INVALID && Now().Sized() && Homed(Now(), hash, size)
      modifies `table, `collectionFlags, `epochFlags
      ensures |table| == size && Now().Sized() && Homed(Now(), hash, size)
      ensures Inserted(old(Now()), e0, Now(), outcome)
      ensures outcome.Found? <==> old(Present(Now(), hash, size, e0))
      ensures outcome.Dropped? && depthLimit > 0 ==> NoneFree(old(collectionFlags), Locs(hash, size, e0))
    {
      hide BitAt, ClearBit, LiveCount, Kept, Locs, Homed, Inserted, InHand, NextLoc;
      ghost var s := Now();
      var e, lastEpoch := e0, true;
      var lastLoc: nat := INVALID;
      var found, loc := Find(e);
      if found {
        FoundStep(s, e, loc);
        PlacedHomed(s, hash, size, loc, e, true);
        collectionFlags, epochFlags := ClearBit(collectionFlags, loc), epochFlags[loc := true];
        assert table[loc := e] == table;
        return Found(loc);
      }
      NothingMoved(s, e0);
      for depth := 0 to depthLimit
        invariant |table| == size && Now().Sized() && Homed(Now(), hash, size)
        invariant InHand(s, e0, Now(), e, lastEpoch) && collectionFlags == s.free
        invariant depth == 0 ==> e == e0
        invariant depth > 0 ==> NoneFree(s.free, Locs(hash, size, e0))
      {
        found, loc := FindFree(e);
        if found {
          FillStep(s, e0, Now(), e, lastEpoch, loc);
          PlacedHomed(Now(), hash, size, loc, e, lastEpoch);
          outcome := Filled(table[loc]);
          table := table[loc := e];
          collectionFlags, epochFlags := ClearBit(collectionFlags, loc), epochFlags[loc := lastEpoch];
          return;
        }
        lastLoc := NextLoc(Locs(hash, size, e), lastLoc);
        SwapStep(s, e0, Now(), e, lastEpoch, lastLoc);
        SwapHomed(Now(), hash, size, lastLoc, e, lastEpoch);
        var other, epoch := table[lastLoc], lastEpoch;
        table, e := table[lastLoc := e], other;
        lastEpoch := epochFlags[lastLoc];
        epochFlags := epochFlags[lastLoc := epoch];
      }
      LeftOver(s, e0, Now(), e, lastEpoch);
      return Dropped(e);
    }
  }

  lemma NothingMoved<E>(s: Slots<E>, e: E)
    requires s.Sized()
    ensures InHand(s, e, s, e, true)
  {
  }

  lemma LeftOver<E>(s: Slots<E>, e0: E, s': Slots<E>, e: E, epoch: bool)
    requires InHand(s, e0, s', e, epoch)
    ensures Inserted(s, e0, s', Dropped(e))
  {
    hide LiveCount, Kept;
  }

  lemma CheckedHomed<E>(s: Slots<E>, counter: nat, epochSize: nat, s': Slots<E>, counter': nat,
                        hash: HashFunctions<E>, size: nat)
    requires s.Sized() && 0 < size && Homed(s, hash, size)
    requires IsChecked(s, counter, epochSize, s', counter')
    ensures s'.Sized() && Homed(s', hash, size)
  {
    hide LiveCount, IsAged, Homed;
    if counter == 0 && LiveCount(s) >= epochSize {
      AgedSized(s, s');
      AgedHomed(s, s', hash, size);
    }
  }

  lemma InsertedFits<E>(s: Slots<E>, e: E, s': Slots<E>, outcome: Outcome<E>)
    requires Inserted(s, e, s', outcome)
    ensures s.Sized() && s'.Sized() && LiveCount(s') <= LiveCount(s) + 1
  {
  }

  /** Exactly one slot was freed. */
  ghost predicate IsFreed<E>(s: Slots<E>, s': Slots<E>, loc: nat) {
    && s.Sized() && s'.Sized() && s'.table == s.table && s'.epochs == s.epochs && |s'.free| == |s.free|
    && forall j :: 0 <= j < |s.table| ==> (BitAt(s'.free, j) <==> j == loc || BitAt(s.free, j))
  }

  lemma OthersKept<E>(s: Slots<E>, s': Slots<E>, loc: nat, x: E)
    requires IsFreed(s, s', loc) && loc < |s.table| && s.table[loc] != x && Some(x) in Kept(s)
    ensures Some(x) in Kept(s')
  {
    hide BitAt;
    assert Some(x) in Held(s);
    var i :| 0 <= i < |s.table| && Held(s)[i] == Some(x);
    assert s.Holds(i) == Some(x);
    assert Held(s')[i] == Some(x);
  }

  lemma FreedOne<E>(s: Slots<E>, hash: HashFunctions<E>, size: nat, loc: nat)
    requires s.Sized() && 0 < size && loc < |s.table| && Homed(s, hash, size)
    ensures var s' := s.(free := SetBit(s.free, loc));
            s'.Sized() && Homed(s', hash, size) && LiveCount(s') <= LiveCount(s) && IsFreed(s, s', loc)
  {
    hide BitAt, SetBit, LiveCount, Locs;
    var s' := s.(free := SetBit(s.free, loc));
    forall j | 0 <= j < |s.table| ensures BitAt(s'.free, j) <==> loc == j || BitAt(s.free, j) {
      BitsExact(s.free, loc, j);
    }
    ChangeOne(s, s', loc);
  }
}
