/** The address manager itself (src/addrman.h, src/addrman.cpp), updating its tables in place.
  *
  * Every method is proved to turn the tables into what the operations of `AddrTables`
  * say, and the public ones to do to the book what the operations of `AddrBook` say. The
  * asserts of the source stand where the source has them. The clock is a parameter and
  * RandomInt an arbitrary choice.
  */
module AddrMan {
  import opened AddrTables
  import AddrBook
  import opened AddrSteps
  import opened Numbers

  const GETADDR_MAX_PCT: nat := 23
  const GETADDR_MAX: nat := 2500

  /** The occupied slots of a bucket table; -1 marks an empty slot. */
  ghost function Slots(table: array2<int>): (r: map<Slot, nat>)
    reads table
    requires Sane(table)
    ensures forall t :: t in r <==> t.0 < table.Length0 && t.1 < table.Length1 && table[t.0, t.1] != -1
    ensures forall t :: t in r ==> r[t] == table[t.0, t.1]
  {
    var cells := set b: nat, p: nat | b < table.Length0 && p < table.Length1 :: (b, p);
    map t | t in cells && table[t.0, t.1] != -1 :: table[t.0, t.1]
  }

  ghost predicate Sane(table: array2<int>)
    reads table
  {
    forall b, p :: 0 <= b < table.Length0 && 0 <= p < table.Length1 ==> table[b, p] >= -1
  }

  /** The assignment table[b][p] = x. */
  method Store(table: array2<int>, b: nat, p: nat, x: int)
    requires Sane(table) && b < table.Length0 && p < table.Length1 && x >= -1
    modifies table
    ensures Sane(table)
    ensures Slots(table) == if x == -1 then old(Slots(table)) - {(b, p)} else old(Slots(table))[(b, p) := x]
    ensures table[b, p] == x
  {
    table[b, p] := x;
    assert x == -1 ==> Slots(table) == old(Slots(table)) - {(b, p)};
    assert x != -1 ==> Slots(table) == old(Slots(table))[(b, p) := x];
  }

  /** A bucket table with every slot empty. */
  method EmptyTable(buckets: nat) returns (table: array2<int>)
    ensures fresh(table) && table.Length0 == buckets && table.Length1 == BUCKET_SIZE
    ensures Sane(table) && Slots(table) == map[]
  {
    table := new int[buckets, BUCKET_SIZE]((_, _) => -1);
    assert Slots(table) == map[];
  }

  class AddrMan {
    var nKey: Hashing
    var nIdCount: nat
    var mapInfo: map<nat, Info>
    var mapAddr: map<NetAddr, nat>
    var vRandom: seq<nat>
    var nTried: int
    const vvTried: array2<int>
    var nNew: int
    const vvNew: array2<int>
    var nLastGood: int

    ghost predicate Shape()
      reads this, vvNew, vvTried
    {
      && vvNew != vvTried
      && vvNew.Length0 == NEW_BUCKET_COUNT && vvNew.Length1 == BUCKET_SIZE
      && vvTried.Length0 == TRIED_BUCKET_COUNT && vvTried.Length1 == BUCKET_SIZE
      && Sane(vvNew) && Sane(vvTried)
    }

    ghost function Tables(): State
      reads this, vvNew, vvTried
      requires Shape()
    {
      State(nIdCount, mapInfo, mapAddr, vRandom, Slots(vvNew), Slots(vvTried), nNew, nTried, nLastGood)
    }

    ghost predicate Valid()
      reads this, vvNew, vvTried
    {
      Shape() && Inv(nKey, Tables(), {}, 0)
    }

    /** What the manager knows, without its indexes. */
    ghost function Book(): (b: AddrBook.Book)
      reads this, vvNew, vvTried
      requires Valid()
    {
      AddrBook.InvViewable(nKey, Tables(), {}, 0);
      AddrBook.View(Tables())
    }

    constructor (nKey: Hashing)
      ensures Valid() && fresh(vvNew) && fresh(vvTried)
      ensures this.nKey == nKey && Tables() == State(0, map[], map[], [], map[], map[], 0, 0, 1)
    {
      this.nKey := nKey;
      nIdCount, mapInfo, mapAddr, vRandom := 0, map[], map[], [];
      nTried, nNew, nLastGood := 0, 0, 1;
      var forNew := EmptyTable(NEW_BUCKET_COUNT);
      var forTried := EmptyTable(TRIED_BUCKET_COUNT);
      vvNew, vvTried := forNew, forTried;
      new;
      hide Inv, Slots, Sane;
      EmptyConsistent(nKey);
    }

    method SwapRandom(nRndPos1: nat, nRndPos2: nat)
      requires Shape() && RandomIndex(mapInfo, vRandom)
      requires nRndPos1 < |vRandom| && nRndPos2 < |vRandom|
      modifies this`mapInfo, this`vRandom
      ensures Shape() && Tables() == Swap(old(Tables()), nRndPos1, nRndPos2)
    {
      if nRndPos1 == nRndPos2 {
        return;
      }
      var nId1 := vRandom[nRndPos1];
      var nId2 := vRandom[nRndPos2];
      assert HasPos(mapInfo, nId1, nRndPos1);
      assert HasPos(mapInfo, nId2, nRndPos2);
      assert nId1 in mapInfo;
      assert nId2 in mapInfo;
      mapInfo := mapInfo[nId1 := mapInfo[nId1].(nRandomPos := nRndPos2)];
      mapInfo := mapInfo[nId2 := mapInfo[nId2].(nRandomPos := nRndPos1)];
      vRandom := vRandom[nRndPos1 := nId2];
      vRandom := vRandom[nRndPos2 := nId1];
    }

    method CreateEntry(addr: Address, addrSource: NetAddr) returns (nId: nat)
      requires Shape()
      modifies this`nIdCount, this`mapInfo, this`mapAddr, this`vRandom
      ensures Shape() && nId == old(nIdCount) && Tables() == Create(old(Tables()), addr, addrSource)
    {
      hide Slots, Sane;
      nId := nIdCount;
      nIdCount := nIdCount + 1;
      mapInfo := mapInfo[nId := Info(Peer(addr.svc, addr.nServices, addr.nTime, addrSource, 0, 0, 0, 0), 0, false, 0)];
      mapAddr := mapAddr[addr.svc.ip := nId];
      mapInfo := mapInfo[nId := mapInfo[nId].(nRandomPos := |vRandom|)];
      vRandom := vRandom + [nId];
    }

    method DeleteEntry(nId: nat, ghost limbo: set<nat>, ghost owed: int)
      requires Shape() && Inv(nKey, Tables(), limbo, owed) && nId in limbo && nId in mapInfo
      modifies this`mapInfo, this`mapAddr, this`vRandom, this`nNew
      ensures Shape() && Tables() == Delete(old(Tables()), nId)
    {
      hide Slots, Sane, Indexed, RandomIndex, TriedPlaced, NewPlaced, Tallied, Counted, SlotsOf, Swap;
      LimboIn(Tables(), limbo);
      PlacedInRandom(Tables(), nId);
      var info := mapInfo[nId];
      assert !info.fInTried;
      assert info.nRefCount == 0;
      SwapRandom(info.nRandomPos, |vRandom| - 1);
      vRandom := vRandom[..|vRandom| - 1];
      mapAddr := mapAddr - {info.peer.svc.ip};
      mapInfo := mapInfo - {nId};
      nNew := nNew - 1;
    }

    method ClearNewSlot(nUBucket: nat, nUBucketPos: nat, ghost limbo: set<nat>, ghost owed: int)
      requires Shape() && Inv(nKey, Tables(), limbo, owed)
      requires nUBucket < NEW_BUCKET_COUNT && nUBucketPos < BUCKET_SIZE
      modifies this`mapInfo, this`mapAddr, this`vRandom, this`nNew, vvNew
      ensures Shape() && Tables() == ClearNew(old(Tables()), (nUBucket, nUBucketPos))
    {
      hide Slots, Sane, Indexed, TriedPlaced, NewPlaced, Counted, Tallied, SlotsOf, Delete;
      ghost var s := Tables();
      ghost var t := (nUBucket, nUBucketPos);
      ClearNewKeeps(nKey, s, t, limbo, owed);
      if vvNew[nUBucket, nUBucketPos] != -1 {
        var nIdDelete := vvNew[nUBucket, nUBucketPos];
        DropSlotKeeps(nKey, s, t, limbo, owed);
        var infoDelete := mapInfo[nIdDelete];
        assert infoDelete.nRefCount > 0;
        infoDelete := infoDelete.(nRefCount := infoDelete.nRefCount - 1);
        mapInfo := mapInfo[nIdDelete := infoDelete];
        Store(vvNew, nUBucket, nUBucketPos, -1);
        assert Tables() == DropSlot(s, t);
        if infoDelete.nRefCount == 0 {
          DeleteEntry(nIdDelete, limbo + {nIdDelete}, owed + 1);
        }
      }
    }

    /** One reference less for the entry in an occupied new slot. */
    method DropReference(bucket: nat, pos: nat)
      requires Shape() && bucket < NEW_BUCKET_COUNT && pos < BUCKET_SIZE && vvNew[bucket, pos] != -1
      requires vvNew[bucket, pos] in mapInfo
      modifies this`mapInfo, vvNew
      ensures Shape() && Tables() == DropSlot(old(Tables()), (bucket, pos))
    {
      hide Slots, Sane;
      var nId := vvNew[bucket, pos];
      Store(vvNew, bucket, pos, -1);
      mapInfo := mapInfo[nId := mapInfo[nId].(nRefCount := mapInfo[nId].nRefCount - 1)];
    }

    /** The first half of MakeTried: leave all new buckets. */
    method LeaveNew(nId: nat)
      requires Valid() && nId in mapInfo && !mapInfo[nId].fInTried
      modifies this`mapInfo, this`nNew, vvNew
      ensures Shape() && Tables() == Unplace(old(Tables()), nId)
      ensures nId in mapInfo && mapInfo[nId].nRefCount == 0
    {
      hide Indexed, TriedPlaced, NewPlaced, Counted, Tallied, Slots, Sane, Leaving, SlotsOf, Below, DropSlot,
           Unplace;
      ghost var s := Tables();
      var svc := mapInfo[nId].peer.svc;
      var bucket := 0;
      LeavingStart(s, nId);
      while bucket < NEW_BUCKET_COUNT
        invariant bucket <= NEW_BUCKET_COUNT
        invariant Shape()
        invariant Tables() == Leaving(s, nId, bucket)
      {
        var pos := nKey.Position(svc, true, bucket);
        LeavingStep(nKey, s, nId, bucket);
        if vvNew[bucket, pos] == nId {
          DropReference(bucket, pos);
        }
        bucket := bucket + 1;
      }
      LeavingEnd(nKey, s, nId);
      nNew := nNew - 1;
    }

    /** One more reference for an entry: nRefCount++ and the slot. */
    method EnterNew(nUBucket: nat, nUBucketPos: nat, nId: nat)
      requires Shape() && nUBucket < NEW_BUCKET_COUNT && nUBucketPos < BUCKET_SIZE && nId in mapInfo
      modifies this`mapInfo, vvNew
      ensures Shape() && Tables() == PutSlot(old(Tables()), (nUBucket, nUBucketPos), nId)
    {
      hide Slots, Sane;
      mapInfo := mapInfo[nId := mapInfo[nId].(nRefCount := mapInfo[nId].nRefCount + 1)];
      Store(vvNew, nUBucket, nUBucketPos, nId);
    }

    method EnterTried(nKBucket: nat, nKBucketPos: nat, nId: nat)
      requires Shape() && nKBucket < TRIED_BUCKET_COUNT && nKBucketPos < BUCKET_SIZE && nId in mapInfo
      modifies this`mapInfo, this`nTried, vvTried
      ensures Shape() && Tables() == SetTried(old(Tables()), (nKBucket, nKBucketPos), nId)
    {
      hide Slots, Sane;
      Store(vvTried, nKBucket, nKBucketPos, nId);
      nTried := nTried + 1;
      mapInfo := mapInfo[nId := mapInfo[nId].(fInTried := true)];
    }

    method LeaveTried(nKBucket: nat, nKBucketPos: nat) returns (nIdEvict: nat)
      requires Shape() && nKBucket < TRIED_BUCKET_COUNT && nKBucketPos < BUCKET_SIZE
      requires vvTried[nKBucket, nKBucketPos] != -1 && vvTried[nKBucket, nKBucketPos] in mapInfo
      modifies this`mapInfo, this`nTried, vvTried
      ensures nIdEvict == old(vvTried[nKBucket, nKBucketPos])
      ensures Shape() && Tables() == UnsetTried(old(Tables()), (nKBucket, nKBucketPos))
    {
      hide Slots, Sane;
      nIdEvict := vvTried[nKBucket, nKBucketPos];
      mapInfo := mapInfo[nIdEvict := mapInfo[nIdEvict].(fInTried := false)];
      Store(vvTried, nKBucket, nKBucketPos, -1);
      nTried := nTried - 1;
    }

    /** Put an entry that is in no table into the new slot its source selects, clearing that slot first. */
    method ReadmitEntry(nIdEvict: nat, ghost limbo: set<nat>)
      requires Shape() && nIdEvict in mapInfo && OtherThere(nKey, Tables(), nIdEvict)
      requires nIdEvict in limbo && Inv(nKey, Tables(), limbo, 0)
      modifies this`mapInfo, this`mapAddr, this`vRandom, this`nNew, vvNew
      ensures Shape() && Tables() == Readmit(nKey, old(Tables()), nIdEvict)
    {
      hide Indexed, TriedPlaced, NewPlaced, Counted, Tallied, Slots, Sane, SlotsOf, ClearNew, PutSlot;
      ghost var s := Tables();
      var peer := mapInfo[nIdEvict].peer;
      var nUBucket := nKey.NewBucket(peer.svc, peer.source);
      var nUBucketPos := nKey.Position(peer.svc, true, nUBucket);
      ghost var u := (nUBucket, nUBucketPos);
      ClearNewSlot(nUBucket, nUBucketPos, limbo, 0);
      assert Tables() == ClearNew(s, u);
      EmptySlot(vvNew, u);
      assert vvNew[nUBucket, nUBucketPos] == -1;
      // The entry was tried until now, so its count goes from 0 to 1.
      EnterNew(nUBucket, nUBucketPos, nIdEvict);
      nNew := nNew + 1;
    }

    /** Move the occupant of an occupied tried slot back to the new table. */
    method EvictTried(nKBucket: nat, nKBucketPos: nat, ghost limbo: set<nat>)
      requires Shape() && Inv(nKey, Tables(), limbo, 0)
      requires nKBucket < TRIED_BUCKET_COUNT && nKBucketPos < BUCKET_SIZE && vvTried[nKBucket, nKBucketPos] != -1
      modifies this`mapInfo, this`mapAddr, this`vRandom, this`nNew, this`nTried, vvNew, vvTried
      ensures Shape() && Tables() == Evict(nKey, old(Tables()), (nKBucket, nKBucketPos), limbo)
      ensures vvTried[nKBucket, nKBucketPos] == -1
    {
      hide Indexed, TriedPlaced, NewPlaced, Counted, Tallied, Slots, Sane, SlotsOf, Readmit, UnsetTried;
      UnsetTriedKeeps(nKey, Tables(), (nKBucket, nKBucketPos), limbo, 0);
      assert vvTried[nKBucket, nKBucketPos] in mapInfo;
      var nIdEvict := LeaveTried(nKBucket, nKBucketPos);
      ReadmitKeeps(nKey, Tables(), nIdEvict, limbo + {nIdEvict});
      ReadmitEntry(nIdEvict, limbo + {nIdEvict});
    }

    /** Move an entry to the tried table; whatever is there goes back to the new table. */
    method MakeTriedEntry(nId: nat)
      requires Valid() && nId in mapInfo && !mapInfo[nId].fInTried
      modifies this`mapInfo, this`mapAddr, this`vRandom, this`nNew, this`nTried, vvNew, vvTried
      ensures Valid() && Tables() == MakeTried(nKey, old(Tables()), nId)
    {
      hide Indexed, TriedPlaced, NewPlaced, Counted, Tallied, Slots, Sane, SlotsOf, Unplace, Evict, SetTried;
      ghost var s := Tables();
      var svc := mapInfo[nId].peer.svc;
      MakeTriedKeeps(nKey, s, nId);
      UnplaceKeeps(nKey, s, nId);
      LeaveNew(nId);
      assert mapInfo[nId].nRefCount == 0;
      var nKBucket := nKey.TriedBucket(svc);
      var nKBucketPos := nKey.Position(svc, false, nKBucket);
      ghost var s1 := Tables();
      if vvTried[nKBucket, nKBucketPos] != -1 {
        EvictKeeps(nKey, s1, (nKBucket, nKBucketPos), {nId});
        EvictTried(nKBucket, nKBucketPos, {nId});
      }
      assert vvTried[nKBucket, nKBucketPos] == -1;
      EnterTried(nKBucket, nKBucketPos, nId);
    }

    /** Find: the entry of an address. */
    method Find(addr: NetAddr) returns (found: bool, nId: nat)
      requires Valid()
      ensures found <==> addr in mapAddr
      ensures found ==> nId == mapAddr[addr] && nId in mapInfo && mapInfo[nId].peer.svc.ip == addr
    {
      hide TriedPlaced, NewPlaced, Counted, Tallied, RandomIndex, Slots, Sane;
      found, nId := false, 0;
      if addr in mapAddr {
        nId := mapAddr[addr];
        Lookup(Tables(), addr);
        found := true;
      }
    }

    /** Some new bucket holds an entry that is not tried; nRnd is where the search starts. */
    method FindBucket(nId: nat, nRnd: nat) returns (nUBucket: int)
      requires Valid() && nId in mapInfo && !mapInfo[nId].fInTried && nRnd < NEW_BUCKET_COUNT
      ensures 0 <= nUBucket < NEW_BUCKET_COUNT
      ensures vvNew[nUBucket, nKey.Position(mapInfo[nId].peer.svc, true, nUBucket)] == nId
    {
      hide Indexed, TriedPlaced, NewPlaced, Counted, Tallied, Slots, Sane;
      ghost var s := Tables();
      nUBucket := -1;
      var n := 0;
      while n < NEW_BUCKET_COUNT
        invariant n <= NEW_BUCKET_COUNT
        invariant forall m :: 0 <= m < n ==> !ProbeHits(s, nKey, nId, nRnd, m)
      {
        var nB := (n + nRnd) % NEW_BUCKET_COUNT;
        var nBpos := nKey.Position(mapInfo[nId].peer.svc, true, nB);
        if vvNew[nB, nBpos] == nId {
          nUBucket := nB;
          return;
        }
        n := n + 1;
      }
      ghost var m := SomeBucket(nKey, s, nId, nRnd);
      assert false;
    }

    /** Replace what is known about a peer. */
    method TouchEntry(nId: nat, peer: Peer)
      requires Valid() && nId in mapInfo && peer.svc == mapInfo[nId].peer.svc
      modifies this`mapInfo
      ensures Valid() && Tables() == Touch(old(Tables()), nId, peer)
    {
      hide Indexed, TriedPlaced, NewPlaced, Counted, Tallied, Slots, Sane;
      TouchKeeps(nKey, Tables(), nId, peer, {}, 0);
      mapInfo := mapInfo[nId := mapInfo[nId].(peer := peer)];
    }

    /** Good_: a peer answered. */
    method Good(addr: Service, nTime: int)
      requires Valid()
      modifies this`mapInfo, this`mapAddr, this`vRandom, this`nNew, this`nTried, this`nLastGood, vvNew, vvTried
      ensures Valid() && Tables() == AddrTables.Good(nKey, old(Tables()), addr, nTime)
      ensures AddrBook.Closed(old(Book())) && Book() == AddrBook.Good(nKey, old(Book()), addr, nTime)
    {
      hide Indexed, TriedPlaced, NewPlaced, Counted, Tallied, Slots, Sane, MakeTried, AddrBook.View,
           AddrBook.Good, AddrBook.Closed;
      ghost var s := Tables();
      GoodKeeps(nKey, s, addr, nTime);
      AddrBook.ViewGood(nKey, s, addr, nTime);
      GoodTimeKeeps(nKey, s, nTime);
      nLastGood := nTime;
      var found, nId := Find(addr.ip);
      if !found {
        return;
      }
      if mapInfo[nId].peer.svc != addr {
        return;
      }
      TouchEntry(nId, mapInfo[nId].peer.(nLastSuccess := nTime, nLastTry := nTime, nAttempts := 0));
      if mapInfo[nId].fInTried {
        return;
      }
      var nRnd: nat :| nRnd < NEW_BUCKET_COUNT;
      var nUBucket := FindBucket(nId, nRnd);
      if nUBucket == -1 {
        assert false;
        return;
      }
      MakeTriedEntry(nId);
    }

    /** The end of Add_: offer an entry the new slot that the announcing source selects. */
    method PlaceEntry(nId: nat, source: NetAddr, now: int, ghost isNew: bool)
      requires Shape() && nId in mapInfo && !mapInfo[nId].fInTried && mapInfo[nId].nRefCount < NEW_BUCKETS_PER_ADDRESS
      requires Inv(nKey, Tables(), Limbo(isNew, nId), Owed(isNew))
      modifies this`mapInfo, this`mapAddr, this`vRandom, this`nNew, vvNew
      ensures Shape() && Tables() == Place(nKey, old(Tables()), nId, source, now)
      ensures Valid()
    {
      hide Indexed, TriedPlaced, NewPlaced, Counted, Tallied, Slots, Sane, SlotsOf, ClearNew, PutSlot, Delete;
      ghost var s, limbo, owed := Tables(), Limbo(isNew, nId), Owed(isNew);
      PlaceKeeps(nKey, s, nId, source, now, limbo, owed);
      LimboIn(s, limbo);
      if limbo == {} { EntryBounds(s, nId); }
      var nUBucket := nKey.NewBucket(mapInfo[nId].peer.svc, source);
      var nUBucketPos := nKey.Position(mapInfo[nId].peer.svc, true, nUBucket);
      ghost var t := (nUBucket, nUBucketPos);
      if vvNew[nUBucket, nUBucketPos] != nId {
        var fInsert := vvNew[nUBucket, nUBucketPos] == -1;
        if !fInsert {
          LimboUnplaced(nKey, s, t, limbo);
          var infoExisting := mapInfo[vvNew[nUBucket, nUBucketPos]];
          if infoExisting.peer.IsTerrible(now) || (infoExisting.nRefCount > 1 && mapInfo[nId].nRefCount == 0) {
            fInsert := true;
          }
        }
        if fInsert {
          ClearNewKeeps(nKey, s, t, limbo, owed);
          ClearNewSlot(nUBucket, nUBucketPos, limbo, owed);
          AbsentClear(s, t);
          EnterNew(nUBucket, nUBucketPos, nId);
        } else {
          if mapInfo[nId].nRefCount == 0 {
            DeleteEntry(nId, limbo, owed);
          }
        }
      }
    }

    /** Add_: a peer is announced; true if the address was unknown. `roll` is the random draw. */
    method Add(addr: Address, source: NetAddr, nTimePenalty: int, routable: bool, now: int)
      returns (fNew: bool, ghost roll: nat)
      requires Valid()
      modifies this`nIdCount, this`mapInfo, this`mapAddr, this`vRandom, this`nNew, vvNew
      ensures Valid()
      ensures !routable ==> !fNew && Tables() == old(Tables())
      ensures routable ==> fNew == (addr.svc.ip !in old(Book()).peers)
      ensures routable ==> Tables() == AddrTables.Add(nKey, old(Tables()), addr, source, nTimePenalty, now, roll)
      ensures AddrBook.Closed(old(Book()))
      ensures routable ==> Book() == AddrBook.Add(nKey, old(Book()), addr, source, nTimePenalty, now, roll)
    {
      hide Indexed, TriedPlaced, NewPlaced, Counted, Tallied, Slots, Sane, Place, Create, AddrBook.View,
           AddrBook.Add, AddrBook.Closed, AddrBook.Viewable;
      ghost var s := Tables();
      roll := 0;
      AddrBook.InvViewable(nKey, s, {}, 0);
      AddrBook.ViewClosed(s);
      if !routable {
        return false, 0;
      }
      fNew := false;
      var found, nId := Find(addr.svc.ip);
      AddrBook.PeersKnow(s, addr.svc.ip);
      if found {
        TouchEntry(nId, Refreshed(mapInfo[nId].peer, addr, nTimePenalty, now));
        ghost var range;
        var declined, draw;
        declined, draw, range := Decline(nId, addr);
        roll := draw;
        AddKnownKeeps(nKey, s, nId, addr, source, nTimePenalty, now, roll);
        AddrBook.ViewAdd(nKey, s, addr, source, nTimePenalty, now, roll);
        if declined {
          return;
        }
        EntryBounds(Tables(), nId);
        PlaceEntry(nId, source, now, false);
      } else {
        AddFreshKeeps(nKey, s, addr, source, nTimePenalty, now);
        AddrBook.ViewAdd(nKey, s, addr, source, nTimePenalty, now, roll);
        ghost var stamped := addr.(nTime := Stamp(addr.nTime - nTimePenalty));
        FreshKeeps(nKey, s, stamped, source);
        nId := CreateStamped(addr, source, nTimePenalty);
        fNew := true;
        FreshUnplaced(s, stamped, source);
        PlaceEntry(nId, source, now, true);
      }
    }

    /** The early exits of Add_ for a known peer, with the draw that grows harder with every reference. */
    method Decline(nId: nat, addr: Address) returns (declined: bool, roll: nat, ghost range: nat)
      requires Valid() && nId in mapInfo
      ensures declined <==> Declined(mapInfo[nId], addr, roll)
      ensures !(declined && roll == 0) ==>
                mapInfo[nId].nRefCount > 0 && range == Pow2(mapInfo[nId].nRefCount) && roll < range
    {
      hide Indexed, TriedPlaced, NewPlaced, Counted, Tallied, Slots, Sane, Pow2;
      roll, range := 0, 1;
      if NoNews(mapInfo[nId].peer, addr) || mapInfo[nId].fInTried || mapInfo[nId].nRefCount == NEW_BUCKETS_PER_ADDRESS {
        declined := true;
        return;
      }
      EntryBounds(Tables(), nId);
      var nFactor, n := 1, 0;
      Pow2Zero();
      while n < mapInfo[nId].nRefCount
        invariant 0 <= n <= mapInfo[nId].nRefCount && nFactor == Pow2(n)
        invariant n > 0 ==> nFactor > 1
      {
        Pow2Step(n);
        nFactor := nFactor * 2;
        n := n + 1;
      }
      var draw: nat :| draw < nFactor;
      roll, range := draw, nFactor;
      declined := nFactor > 1 && roll != 0;
    }

    /** Create, with the time penalty applied, and nNew++. */
    method CreateStamped(addr: Address, source: NetAddr, nTimePenalty: int) returns (nId: nat)
      requires Shape()
      modifies this`nIdCount, this`mapInfo, this`mapAddr, this`vRandom, this`nNew
      ensures nId == old(nIdCount) && Shape()
      ensures var s := Create(old(Tables()), addr.(nTime := Stamp(addr.nTime - nTimePenalty)), source);
              Tables() == s.(nNew := s.nNew + 1)
    {
      hide Slots, Sane;
      nId := CreateEntry(addr, source);
      var peer := mapInfo[nId].peer;
      mapInfo := mapInfo[nId := mapInfo[nId].(peer := peer.(nTime := Stamp(peer.nTime - nTimePenalty)))];
      nNew := nNew + 1;
    }

    /** Attempt_: we tried to connect. */
    method Attempt(addr: Service, fCountFailure: bool, nTime: int)
      requires Valid()
      modifies this`mapInfo
      ensures Valid() && nLastGood == old(nLastGood)
      ensures Tables() == Step(nKey, old(Tables()), Op.Attempt(addr, fCountFailure, nTime))
      ensures var b := old(Book());
              Book() == if KnowsService(b, addr)
                        then Revised(b, Attempted(b.peers[addr.ip], fCountFailure, nTime, nLastGood)) else b
    {
      hide Indexed, TriedPlaced, NewPlaced, Counted, Tallied, Slots, Sane;
      var found, nId := Find(addr.ip);
      ghost var s := Tables();
      AddrBook.InvViewable(nKey, s, {}, 0);
      AddrBook.PeersKnow(s, addr.ip);
      if !found || mapInfo[nId].peer.svc != addr {
        return;
      }
      var p := Attempted(mapInfo[nId].peer, fCountFailure, nTime, nLastGood);
      AddrBook.ViewTouch(s, nId, p);
      TouchEntry(nId, p);
    }

    /** Connected_: we are connected. */
    method Connected(addr: Service, nTime: int)
      requires Valid()
      modifies this`mapInfo
      ensures Valid() && Tables() == Step(nKey, old(Tables()), Op.Connected(addr, nTime))
      ensures var b := old(Book());
              Book() == if KnowsService(b, addr) then Revised(b, Seen(b.peers[addr.ip], nTime)) else b
    {
      hide Indexed, TriedPlaced, NewPlaced, Counted, Tallied, Slots, Sane;
      var found, nId := Find(addr.ip);
      ghost var s := Tables();
      AddrBook.InvViewable(nKey, s, {}, 0);
      AddrBook.PeersKnow(s, addr.ip);
      if !found || mapInfo[nId].peer.svc != addr {
        return;
      }
      var p := Seen(mapInfo[nId].peer, nTime);
      AddrBook.ViewTouch(s, nId, p);
      TouchEntry(nId, p);
    }

    /** SetServices_. */
    method SetServices(addr: Service, nServices: bv64)
      requires Valid()
      modifies this`mapInfo
      ensures Valid() && Tables() == Step(nKey, old(Tables()), Op.SetServices(addr, nServices))
      ensures var b := old(Book());
              Book() == if KnowsService(b, addr) then Revised(b, b.peers[addr.ip].(nServices := nServices)) else b
    {
      hide Indexed, TriedPlaced, NewPlaced, Counted, Tallied, Slots, Sane;
      var found, nId := Find(addr.ip);
      ghost var s := Tables();
      AddrBook.InvViewable(nKey, s, {}, 0);
      AddrBook.PeersKnow(s, addr.ip);
      if !found || mapInfo[nId].peer.svc != addr {
        return;
      }
      var p := mapInfo[nId].peer.(nServices := nServices);
      AddrBook.ViewTouch(s, nId, p);
      TouchEntry(nId, p);
    }

    /** GetAddr_: a random selection of peers worth telling others about. To the tables it is a number of shuffles. */
    method GetAddr(now: int) returns (vAddr: seq<Address>, ghost shuffles: seq<Op>)
      requires Valid()
      modifies this`mapInfo, this`vRandom
      ensures Valid() && Book() == old(Book())
      ensures Leads(nKey, old(Tables()), shuffles, Tables()) && forall op :: op in shuffles ==> op.Shuffle?
      ensures Selection(Book(), vAddr, now)
      ensures |vAddr| <= GETADDR_MAX && 100 * |vAddr| <= GETADDR_MAX_PCT * |Book().peers|
      ensures (|vAddr| < GETADDR_MAX && 100 * (|vAddr| + 1) <= GETADDR_MAX_PCT * |Book().peers|) ==>
                forall a :: a in Book().peers && !Book().peers[a].IsTerrible(now) ==> Selects(vAddr, a)
    {
      hide AddrIndex, RandomIndex, TriedPlaced, NewPlaced, Counted, Tallied, Slots, Sane, SameEntries, Chosen,
           Selection, AddrBook.View, AddrBook.Viewable, Swap, Leads;
      ghost var s := Tables();
      vAddr, shuffles := [], [];
      var nNodes := GETADDR_MAX_PCT * |vRandom| / 100;
      if nNodes > GETADDR_MAX {
        nNodes := GETADDR_MAX;
      }
      var n := 0;
      ShuffleStart(s.mapInfo);
      LeadsNone(nKey, s);
      while n < |vRandom|
        invariant n <= |vRandom| == |s.vRandom|
        invariant Valid() && nKey == old(nKey)
        invariant Tables() == s.(mapInfo := mapInfo, vRandom := vRandom)
        invariant SameEntries(s.mapInfo, mapInfo)
        invariant AllIn(mapInfo, vRandom[..n]) && vAddr == Chosen(mapInfo, vRandom[..n], now)
        invariant |vAddr| <= nNodes
        invariant Leads(nKey, s, shuffles, Tables()) && forall op :: op in shuffles ==> op.Shuffle?
      {
        if |vAddr| >= nNodes {
          break;
        }
        var nRndPos: nat :| n <= nRndPos < |vRandom|;
        ghost var before := Tables();
        ShuffleStep(nKey, before, s.mapInfo, n, nRndPos, now);
        LeadsOn(nKey, s, shuffles, before, Shuffle(n, nRndPos));
        shuffles := shuffles + [Shuffle(n, nRndPos)];
        SwapRandom(n, nRndPos);
        assert vRandom[n] in mapInfo;
        var ai := mapInfo[vRandom[n]].peer;
        if !ai.IsTerrible(now) {
          vAddr := vAddr + [AddressOf(ai)];
        }
        n := n + 1;
      }
      ShuffleEnd(nKey, s, Tables(), n, now);
    }
  }

  /** Entry id has left its slots in the buckets before the given one. */
  ghost function Leaving(s: State, id: nat, bucket: nat): (r: State)
    requires id in s.mapInfo
    ensures r == s.(vvNew := r.vvNew, mapInfo := r.mapInfo)
    ensures r.mapInfo.Keys == s.mapInfo.Keys
  {
    var ts := SlotsOf(s.vvNew, id);
    s.(vvNew := s.vvNew - Below(ts, bucket),
       mapInfo := s.mapInfo[id := s.mapInfo[id].(nRefCount := |ts - Below(ts, bucket)|)])
  }

  lemma LeavingStart(s: State, id: nat)
    requires id in s.mapInfo && Counted(s.mapInfo, s.vvNew, {})
    ensures Leaving(s, id, 0) == s
  {
    assert Below(SlotsOf(s.vvNew, id), 0) == {};
    assert SlotsOf(s.vvNew, id) - {} == SlotsOf(s.vvNew, id);
  }

  lemma LeavingStep(k: Hashing, s: State, id: nat, bucket: nat)
    requires NewPlaced(k, s.mapInfo, s.vvNew) && id in s.mapInfo
    ensures var t := (bucket, k.Position(s.mapInfo[id].peer.svc, true, bucket));
            var r := Leaving(s, id, bucket);
            if t in r.vvNew && r.vvNew[t] == id
            then Leaving(s, id, bucket + 1) == DropSlot(r, t)
            else Leaving(s, id, bucket + 1) == r
  {
    var ts := SlotsOf(s.vvNew, id);
    var t := (bucket, k.Position(s.mapInfo[id].peer.svc, true, bucket));
    BelowStep(k, s, id, bucket);
    hide NewPlaced;
    assert t !in Below(ts, bucket);
    if t in ts {
      assert ts - Below(ts, bucket + 1) == (ts - Below(ts, bucket)) - {t};
      assert s.vvNew - Below(ts, bucket + 1) == (s.vvNew - Below(ts, bucket)) - {t};
    }
  }

  lemma LeavingEnd(k: Hashing, s: State, id: nat)
    requires NewPlaced(k, s.mapInfo, s.vvNew) && id in s.mapInfo
    ensures var r := Leaving(s, id, NEW_BUCKET_COUNT); r.(nNew := r.nNew - 1) == Unplace(s, id)
    ensures Leaving(s, id, NEW_BUCKET_COUNT).mapInfo[id].nRefCount == 0
  {
    AllBelow(k, s, id);
    assert SlotsOf(s.vvNew, id) - SlotsOf(s.vvNew, id) == {};
  }

  ghost function Below(ts: set<Slot>, bucket: nat): set<Slot> {
    set t | t in ts && t.0 < bucket
  }

  /** In one bucket an entry can only be at its own position. */
  lemma BelowStep(k: Hashing, s: State, id: nat, bucket: nat)
    requires NewPlaced(k, s.mapInfo, s.vvNew) && id in s.mapInfo
    ensures var ts := SlotsOf(s.vvNew, id);
            var t := (bucket, k.Position(s.mapInfo[id].peer.svc, true, bucket));
            Below(ts, bucket + 1) == if t in ts then Below(ts, bucket) + {t} else Below(ts, bucket)
  {
    var ts := SlotsOf(s.vvNew, id);
    forall t | t in ts ensures t.1 == k.Position(s.mapInfo[id].peer.svc, true, t.0) {
      assert OwnsNew(k, s.mapInfo, s.vvNew[t], t);
    }
    forall t | t in ts && t.0 == bucket ensures t == (bucket, k.Position(s.mapInfo[id].peer.svc, true, bucket)) {
    }
  }

  lemma AllBelow(k: Hashing, s: State, id: nat)
    requires NewPlaced(k, s.mapInfo, s.vvNew)
    ensures Below(SlotsOf(s.vvNew, id), NEW_BUCKET_COUNT) == SlotsOf(s.vvNew, id)
  {
    forall t | t in SlotsOf(s.vvNew, id) ensures t.0 < NEW_BUCKET_COUNT {
      assert OwnsNew(k, s.mapInfo, s.vvNew[t], t);
    }
  }

  /** The m-th bucket of a search that starts at nRnd holds the entry. */
  ghost predicate ProbeHits(s: State, k: Hashing, id: nat, nRnd: nat, m: nat)
    requires id in s.mapInfo
  {
    var bucket := (m + nRnd) % NEW_BUCKET_COUNT;
    var t := (bucket, k.Position(s.mapInfo[id].peer.svc, true, bucket));
    t in s.vvNew && s.vvNew[t] == id
  }

  /** The rotated search meets a bucket that holds the entry. */
  lemma SomeBucket(k: Hashing, s: State, id: nat, nRnd: nat) returns (m: nat)
    requires NewPlaced(k, s.mapInfo, s.vvNew) && Counted(s.mapInfo, s.vvNew, {})
    requires id in s.mapInfo && !s.mapInfo[id].fInTried && nRnd < NEW_BUCKET_COUNT
    ensures m < NEW_BUCKET_COUNT && ProbeHits(s, k, id, nRnd, m)
  {
    assert |SlotsOf(s.vvNew, id)| >= 1;
    assert SlotsOf(s.vvNew, id) != {};
    var t :| t in SlotsOf(s.vvNew, id);
    assert OwnsNew(k, s.mapInfo, s.vvNew[t], t);
    m := (t.0 - nRnd + NEW_BUCKET_COUNT) % NEW_BUCKET_COUNT;
    assert (m + nRnd) % NEW_BUCKET_COUNT == t.0;
  }

  /** The slot that entry id would take is empty or some other entry's. */
  ghost predicate OtherThere(k: Hashing, s: State, id: nat)
    requires id in s.mapInfo
  {
    var u := k.NewSlot(s.mapInfo[id].peer.svc, s.mapInfo[id].peer.source);
    u in s.vvNew ==> s.vvNew[u] in s.mapInfo && s.vvNew[u] != id
  }

  /** An entry just created has no place yet. */
  ghost function Limbo(isNew: bool, id: nat): set<nat> { if isNew then {id} else {} }

  ghost function Owed(isNew: bool): int { if isNew then 1 else 0 }

  lemma AbsentClear(s: State, t: Slot)
    requires Indexed(s)
    requires t in s.vvNew ==> s.vvNew[t] in s.mapInfo
    ensures t !in s.vvNew ==> ClearNew(s, t) == s
  {
  }

  ghost function Revised(b: AddrBook.Book, p: Peer): AddrBook.Book {
    b.(peers := b.peers[p.svc.ip := p])
  }

  lemma FreshUnplaced(s: State, addr: Address, source: NetAddr)
    ensures var r := Create(s, addr, source);
            s.nIdCount in r.mapInfo && !r.mapInfo[s.nIdCount].fInTried && r.mapInfo[s.nIdCount].nRefCount == 0
  {
  }

  lemma EmptyConsistent(k: Hashing)
    ensures Inv(k, State(0, map[], map[], [], map[], map[], 0, 0, 1), {}, 0)
  {
    assert NewIds(map[]) == {} && TriedIds(map[]) == {};
  }

  // ----- The selection of GetAddr -----

  function AddressOf(p: Peer): Address {
    Address(p.svc, p.nServices, p.nTime)
  }

  ghost predicate Selects(vAddr: seq<Address>, a: NetAddr) {
    exists i :: 0 <= i < |vAddr| && vAddr[i].svc.ip == a
  }

  /** Distinct known peers, none of them terrible, as they are known. */
  ghost predicate Selection(b: AddrBook.Book, vAddr: seq<Address>, now: int) {
    && (forall i :: 0 <= i < |vAddr| ==>
          && vAddr[i].svc.ip in b.peers && vAddr[i] == AddressOf(b.peers[vAddr[i].svc.ip])
          && !b.peers[vAddr[i].svc.ip].IsTerrible(now))
    && (forall i, j :: 0 <= i < j < |vAddr| ==> vAddr[i].svc.ip != vAddr[j].svc.ip)
  }

  ghost predicate AllIn(info: map<nat, Info>, ids: seq<nat>) {
    forall i :: 0 <= i < |ids| ==> AddrBook.Known(info, ids[i])
  }

  /** The addresses of those ids whose peers are not terrible. */
  ghost function Chosen(info: map<nat, Info>, ids: seq<nat>, now: int): seq<Address>
    requires AllIn(info, ids)
  {
    if ids == [] then [] else
    var last := |ids| - 1;
    assert AddrBook.Known(info, ids[last]);
    assert AllIn(info, ids[..last]) by {
      forall i | 0 <= i < last ensures AddrBook.Known(info, ids[..last][i]) { assert AddrBook.Known(info, ids[i]); }
    }
    var rest := Chosen(info, ids[..last], now);
    var p := AddrBook.PeerAt(info, ids[last]);
    if p.IsTerrible(now) then rest else rest + [AddressOf(p)]
  }

  lemma {:induction false} ChosenSame(m: map<nat, Info>, n: map<nat, Info>, ids: seq<nat>, now: int)
    requires SameEntries(m, n) && AllIn(m, ids)
    ensures AllIn(n, ids) && Chosen(m, ids, now) == Chosen(n, ids, now)
  {
    forall i | 0 <= i < |ids| ensures AddrBook.Known(n, ids[i]) { assert AddrBook.Known(m, ids[i]); }
    if ids != [] {
      var last := |ids| - 1;
      assert AddrBook.Known(m, ids[last]);
      forall i | 0 <= i < last ensures AddrBook.Known(m, ids[..last][i]) { assert AddrBook.Known(m, ids[i]); }
      ChosenSame(m, n, ids[..last], now);
    }
  }

  lemma ShuffleStart(info: map<nat, Info>)
    ensures SameEntries(info, info) && AllIn(info, [])
    ensures forall now :: Chosen(info, [], now) == []
  {
  }

  lemma SameTrans(m: map<nat, Info>, n: map<nat, Info>, o: map<nat, Info>)
    requires SameEntries(m, n) && SameEntries(n, o)
    ensures SameEntries(m, o)
  {
  }

  /** One step of the shuffle extends the chosen prefix by one id. */
  lemma ShuffleStep(k: Hashing, s: State, first: map<nat, Info>, n: nat, r: nat, now: int)
    requires Inv(k, s, {}, 0) && SameEntries(first, s.mapInfo)
    requires n <= r < |s.vRandom|
    requires AllIn(s.mapInfo, s.vRandom[..n])
    ensures var s' := Swap(s, n, r);
            && Inv(k, s', {}, 0) && SameEntries(first, s'.mapInfo)
            && AllIn(s'.mapInfo, s'.vRandom[..n + 1])
            && s'.vRandom[n] in s'.mapInfo
            && var p := s'.mapInfo[s'.vRandom[n]].peer;
               (Chosen(s'.mapInfo, s'.vRandom[..n + 1], now)
                == Chosen(s.mapInfo, s.vRandom[..n], now) + if p.IsTerrible(now) then [] else [AddressOf(p)])
  {
    hide AddrIndex, RandomIndex, TriedPlaced, NewPlaced, Counted, Tallied, SameEntries, Swap;
    var s' := Swap(s, n, r);
    SwapKeeps(k, s, n, r, {}, 0);
    SwapIndexed(s, n, r);
    SameTrans(first, s.mapInfo, s'.mapInfo);
    ChosenSame(s.mapInfo, s'.mapInfo, s.vRandom[..n], now);
    PrefixIn(s', n + 1);
    assert s'.vRandom[..n + 1][..n] == s.vRandom[..n];
    assert AddrBook.Known(s'.mapInfo, s'.vRandom[..n + 1][n]);
  }

  lemma PrefixIn(s: State, n: nat)
    requires Indexed(s) && n <= |s.vRandom|
    ensures AllIn(s.mapInfo, s.vRandom[..n])
  {
    forall i | 0 <= i < n ensures AddrBook.Known(s.mapInfo, s.vRandom[..n][i]) {
      assert HasPos(s.mapInfo, s.vRandom[i], i);
    }
  }

  /** Every chosen address is that of an id among the first n. */
  ghost predicate FromPrefix(s: State, vAddr: seq<Address>, n: nat)
    requires n <= |s.vRandom|
  {
    forall i :: 0 <= i < |vAddr| ==> AmongFirst(s, vAddr[i].svc.ip, n)
  }

  ghost predicate AmongFirst(s: State, a: NetAddr, n: nat)
    requires n <= |s.vRandom|
  {
    a in s.mapAddr && HasAddr(s.mapInfo, s.mapAddr[a], a) && s.mapInfo[s.mapAddr[a]].nRandomPos < n
  }

  lemma {:induction false} ChosenSelects(s: State, n: nat, now: int)
    requires Indexed(s) && AddrBook.Viewable(s) && n <= |s.vRandom| && AllIn(s.mapInfo, s.vRandom[..n])
    ensures Selection(AddrBook.View(s), Chosen(s.mapInfo, s.vRandom[..n], now), now)
    ensures FromPrefix(s, Chosen(s.mapInfo, s.vRandom[..n], now), n)
    ensures forall a :: AmongFirst(s, a, n) && !s.mapInfo[s.mapAddr[a]].peer.IsTerrible(now) ==>
              Selects(Chosen(s.mapInfo, s.vRandom[..n], now), a)
  {
    if n > 0 {
      var ids := s.vRandom[..n];
      assert ids[..n - 1] == s.vRandom[..n - 1];
      PrefixIn(s, n - 1);
      ChosenSelects(s, n - 1, now);
      assert HasPos(s.mapInfo, s.vRandom[n - 1], n - 1);
      var id := s.vRandom[n - 1];
      var p := s.mapInfo[id].peer;
      var rest := Chosen(s.mapInfo, ids[..n - 1], now);
      AddrBook.PeersKnow(s, p.svc.ip);
      ChosenLast(s, rest, n - 1, now);
    }
  }

  lemma PlacedInRandom(s: State, id: nat)
    requires Indexed(s) && id in s.mapInfo
    ensures RandomIndex(s.mapInfo, s.vRandom) && s.mapInfo[id].nRandomPos < |s.vRandom|
  {
  }

  lemma EmptySlot(table: array2<int>, t: Slot)
    requires Sane(table) && t.0 < table.Length0 && t.1 < table.Length1 && t !in Slots(table)
    ensures table[t.0, t.1] == -1
  {
  }

  /** The induction step of ChosenSelects. */
  lemma ChosenLast(s: State, rest: seq<Address>, m: nat, now: int)
    requires Indexed(s) && AddrBook.Viewable(s) && m < |s.vRandom|
    requires Selection(AddrBook.View(s), rest, now) && FromPrefix(s, rest, m)
    requires forall a :: AmongFirst(s, a, m) && !s.mapInfo[s.mapAddr[a]].peer.IsTerrible(now) ==> Selects(rest, a)
    ensures HasPos(s.mapInfo, s.vRandom[m], m)
    ensures var p := s.mapInfo[s.vRandom[m]].peer;
            var all := if p.IsTerrible(now) then rest else rest + [AddressOf(p)];
            && Selection(AddrBook.View(s), all, now)
            && FromPrefix(s, all, m + 1)
            && forall a :: AmongFirst(s, a, m + 1) && !s.mapInfo[s.mapAddr[a]].peer.IsTerrible(now) ==> Selects(all, a)
  {
    assert HasPos(s.mapInfo, s.vRandom[m], m);
    var id := s.vRandom[m];
    var p := s.mapInfo[id].peer;
    var all := if p.IsTerrible(now) then rest else rest + [AddressOf(p)];
    AddrBook.PeersKnow(s, p.svc.ip);
    assert s.mapAddr[p.svc.ip] == id;
    assert AmongFirst(s, p.svc.ip, m + 1) && !AmongFirst(s, p.svc.ip, m);
    forall i | 0 <= i < |all| ensures AmongFirst(s, all[i].svc.ip, m + 1) {
      if i < |rest| { assert AmongFirst(s, rest[i].svc.ip, m); }
    }
    forall a | AmongFirst(s, a, m + 1) && !s.mapInfo[s.mapAddr[a]].peer.IsTerrible(now) ensures Selects(all, a) {
      if AmongFirst(s, a, m) {
        var i :| 0 <= i < |rest| && rest[i].svc.ip == a;
        assert all[i].svc.ip == a;
      } else {
        assert s.mapInfo[s.mapAddr[a]].nRandomPos == m;
        assert s.mapAddr[a] == id;
        assert all[|rest|].svc.ip == a;
      }
    }
    assert Selection(AddrBook.View(s), all, now) by {
      forall i | 0 <= i < |rest| ensures rest[i].svc.ip != p.svc.ip {
        assert AmongFirst(s, rest[i].svc.ip, m);
      }
    }
  }

  lemma {:induction false} SizeOfIndex(info: map<nat, Info>, addr: map<NetAddr, nat>, random: seq<nat>)
    requires AddrIndex(info, addr) && RandomIndex(info, random)
    ensures |addr| == |random|
    decreases |random|
  {
    if random == [] {
      assert info == map[];
      assert forall a :: a in addr ==> HasAddr(info, addr[a], a);
      assert addr == map[];
    } else {
      var id := random[|random| - 1];
      assert HasPos(info, id, |random| - 1);
      var a := info[id].peer.svc.ip;
      RemoveLastIndexed(info, addr, random, id);
      hide AddrIndex, RandomIndex;
      SizeOfIndex(info - {id}, addr - {a}, random[..|random| - 1]);
      assert (addr - {a}).Keys == addr.Keys - {a};
      assert |addr.Keys| == |(addr - {a}).Keys| + 1;
    }
  }

  lemma ShuffleEnd(k: Hashing, s: State, r: State, n: nat, now: int)
    requires Inv(k, s, {}, 0) && Inv(k, r, {}, 0)
    requires r == s.(mapInfo := r.mapInfo, vRandom := r.vRandom) && SameEntries(s.mapInfo, r.mapInfo)
    requires n <= |r.vRandom| && AllIn(r.mapInfo, r.vRandom[..n])
    ensures AddrBook.Viewable(s) && AddrBook.Viewable(r) && AddrBook.View(r) == AddrBook.View(s)
    ensures Selection(AddrBook.View(r), Chosen(r.mapInfo, r.vRandom[..n], now), now)
    ensures |AddrBook.View(r).peers| == |r.vRandom|
    ensures n == |r.vRandom| ==>
              forall a :: a in AddrBook.View(r).peers && !AddrBook.View(r).peers[a].IsTerrible(now) ==>
                Selects(Chosen(r.mapInfo, r.vRandom[..n], now), a)
  {
    hide Indexed, AddrIndex, RandomIndex, TriedPlaced, NewPlaced, Counted, Tallied, SameEntries, Chosen,
         Selection;
    AddrBook.InvViewable(k, s, {}, 0);
    AddrBook.InvViewable(k, r, {}, 0);
    AddrBook.PeersSame(s.mapInfo, r.mapInfo, s.mapAddr);
    AddrBook.NamesSame(s.mapInfo, r.mapInfo, s.vvNew);
    AddrBook.NamesSame(s.mapInfo, r.mapInfo, s.vvTried);
    ChosenSelects(r, n, now);
    IndexSize(r);
    if n == |r.vRandom| {
      forall a | a in AddrBook.View(r).peers && !AddrBook.View(r).peers[a].IsTerrible(now)
        ensures Selects(Chosen(r.mapInfo, r.vRandom[..n], now), a)
      {
        AddrBook.PeersKnow(r, a);
        EveryoneAmong(r, a);
      }
    }
  }

  lemma IndexSize(s: State)
    requires Indexed(s) && AddrBook.Viewable(s)
    ensures |AddrBook.View(s).peers| == |s.vRandom|
  {
    SizeOfIndex(s.mapInfo, s.mapAddr, s.vRandom);
    assert AddrBook.View(s).peers.Keys == s.mapAddr.Keys;
  }

  lemma EveryoneAmong(s: State, a: NetAddr)
    requires Indexed(s) && a in s.mapAddr
    ensures AmongFirst(s, a, |s.vRandom|)
  {
    assert HasAddr(s.mapInfo, s.mapAddr[a], a);
  }
}
