/** The tables of the address manager (src/addrman.h, src/addrman.cpp) as values.
  *
  * `State` holds every field of CAddrMan: the id-indexed entries, the address
  * index, the shuffled id vector, both bucket tables, and the counters. A slot of a
  * bucket table that holds -1 in the source is a slot missing from the map here.
  * `Inv` is the consistency that Check_ (src/addrman.cpp:387-461) tests, with room for
  * entries that are between two tables in the middle of an operation.
  */
module AddrTables {

  const TRIED_BUCKET_COUNT: nat := 256
  const NEW_BUCKET_COUNT: nat := 1024
  const BUCKET_SIZE: nat := 64
  const NEW_BUCKETS_PER_ADDRESS: nat := 8
  const HORIZON_DAYS: nat := 30
  const RETRIES: nat := 3
  const MAX_FAILURES: nat := 10
  const MIN_FAIL_DAYS: nat := 7

  /** A network address without a port (CNetAddr). */
  type NetAddr(==, !new)

  /** An address with a port (CService). */
  datatype Service = Service(ip: NetAddr, port: nat)

  /** What a peer announces (CAddress). */
  datatype Address = Address(svc: Service, nServices: bv64, nTime: nat)

  /** Bucket and position in a bucket. */
  type Slot = (nat, nat)

  /** The keyed hashes that place entries; the hash functions themselves stay uninterpreted. */
  datatype Hashing = Hashing(
    nKey: nat,
    triedHash: (nat, Service) -> nat,
    newHash: (nat, Service, NetAddr) -> nat,
    positionHash: (nat, Service, bool, nat) -> nat)
  {
    function TriedBucket(svc: Service): nat {
      triedHash(nKey, svc) % TRIED_BUCKET_COUNT
    }

    function NewBucket(svc: Service, source: NetAddr): nat {
      newHash(nKey, svc, source) % NEW_BUCKET_COUNT
    }

    function Position(svc: Service, fNew: bool, bucket: nat): nat {
      positionHash(nKey, svc, fNew, bucket) % BUCKET_SIZE
    }

    function TriedSlot(svc: Service): Slot {
      var b := TriedBucket(svc);
      (b, Position(svc, false, b))
    }

    function NewSlot(svc: Service, source: NetAddr): Slot {
      var b := NewBucket(svc, source);
      (b, Position(svc, true, b))
    }
  }

  /** The part of CAddrInfo that says something about the peer. */
  datatype Peer = Peer(
    svc: Service,
    nServices: bv64,
    nTime: nat,
    source: NetAddr,
    nLastTry: int,
    nLastCountAttempt: int,
    nLastSuccess: int,
    nAttempts: nat)
  {
    function IsTerrible(nNow: int): bool {
      if nLastTry != 0 && nLastTry >= nNow - 60 then false
      else if nTime > nNow + 10 * 60 then true
      else if nTime == 0 || nNow - nTime > HORIZON_DAYS * 24 * 60 * 60 then true
      else if nLastSuccess == 0 && nAttempts >= RETRIES then true
      else nNow - nLastSuccess > MIN_FAIL_DAYS * 24 * 60 * 60 && nAttempts >= MAX_FAILURES
    }
  }

  /** A whole CAddrInfo: the peer and its bookkeeping. */
  datatype Info = Info(peer: Peer, nRefCount: int, fInTried: bool, nRandomPos: nat)

  datatype State = State(
    nIdCount: nat,
    mapInfo: map<nat, Info>,
    mapAddr: map<NetAddr, nat>,
    vRandom: seq<nat>,
    vvNew: map<Slot, nat>,
    vvTried: map<Slot, nat>,
    nNew: int,
    nTried: int,
    nLastGood: int)

  // ----- Consistency -----

  /** The slots of a table that hold x. */
  ghost function SlotsOf<X(!new)>(table: map<Slot, X>, x: X): (r: set<Slot>)
    ensures forall t :: t in r <==> t in table && table[t] == x
  {
    set t | t in table && table[t] == x
  }

  ghost function TriedIds(info: map<nat, Info>): (r: set<nat>)
    ensures forall id :: id in r <==> id in info && info[id].fInTried
  {
    set id | id in info && info[id].fInTried
  }

  ghost function NewIds(info: map<nat, Info>): (r: set<nat>)
    ensures forall id :: id in r <==> id in info && !info[id].fInTried
  {
    set id | id in info && !info[id].fInTried
  }

  /** Entry id has address a. */
  ghost predicate HasAddr(info: map<nat, Info>, id: nat, a: NetAddr) {
    id in info && info[id].peer.svc.ip == a
  }

  /** mapAddr is the inverse of mapInfo's addresses. */
  ghost predicate AddrIndex(info: map<nat, Info>, addr: map<NetAddr, nat>) {
    && (forall id :: id in info ==> info[id].peer.svc.ip in addr && addr[info[id].peer.svc.ip] == id)
    && (forall a :: a in addr ==> HasAddr(info, addr[a], a))
  }

  /** Entry id believes to be at position i of vRandom. */
  ghost predicate HasPos(info: map<nat, Info>, id: nat, i: nat) {
    id in info && info[id].nRandomPos == i
  }

  /** vRandom is the inverse of mapInfo's positions. */
  ghost predicate RandomIndex(info: map<nat, Info>, random: seq<nat>) {
    && (forall id :: id in info ==> info[id].nRandomPos < |random| && random[info[id].nRandomPos] == id)
    && (forall i :: 0 <= i < |random| ==> HasPos(info, random[i], i))
  }

  ghost predicate Indexed(s: State) {
    && (forall id :: id in s.mapInfo ==> id < s.nIdCount)
    && AddrIndex(s.mapInfo, s.mapAddr)
    && RandomIndex(s.mapInfo, s.vRandom)
  }

  /** Entry id is tried and t is its tried slot. */
  ghost predicate OwnsTried(k: Hashing, info: map<nat, Info>, id: nat, t: Slot) {
    id in info && info[id].fInTried && t == k.TriedSlot(info[id].peer.svc)
  }

  /** The tried table holds exactly the tried entries, each in its own slot. */
  ghost predicate TriedPlaced(k: Hashing, info: map<nat, Info>, table: map<Slot, nat>) {
    && (forall t :: t in table ==> OwnsTried(k, info, table[t], t))
    && (forall id :: id in info && info[id].fInTried ==>
          k.TriedSlot(info[id].peer.svc) in table && table[k.TriedSlot(info[id].peer.svc)] == id)
  }

  /** Entry id is not tried and t is its slot in some new bucket. */
  ghost predicate OwnsNew(k: Hashing, info: map<nat, Info>, id: nat, t: Slot) {
    && id in info && !info[id].fInTried
    && t.0 < NEW_BUCKET_COUNT && t.1 == k.Position(info[id].peer.svc, true, t.0)
  }

  /** The new table holds only entries that are not tried, each in slots of its own. */
  ghost predicate NewPlaced(k: Hashing, info: map<nat, Info>, table: map<Slot, nat>) {
    forall t :: t in table ==> OwnsNew(k, info, table[t], t)
  }

  /** Reference counts are slot counts, and every entry outside limbo is in exactly one table. */
  ghost predicate Counted(info: map<nat, Info>, table: map<Slot, nat>, limbo: set<nat>) {
    && (forall id {:trigger SlotsOf(table, id)} :: id in info ==> info[id].nRefCount == |SlotsOf(table, id)|)
    && (forall id :: id in info && !info[id].fInTried && id !in limbo ==>
          1 <= info[id].nRefCount <= NEW_BUCKETS_PER_ADDRESS)
    && (forall id :: id in limbo ==> id in info && !info[id].fInTried && info[id].nRefCount == 0)
  }

  /** What Check_ asks of the times; it is not part of the invariant, since it depends on the times callers give. */
  ghost predicate Timed(info: map<nat, Info>) {
    forall id :: id in info ==> PeerTimed(info[id].peer, info[id].fInTried)
  }

  ghost predicate PeerTimed(p: Peer, tried: bool) {
    p.nLastTry >= 0 && p.nLastSuccess >= 0 && (tried ==> p.nLastSuccess != 0)
  }

  /** The counters are exact, except that nNew counts `owed` entries of limbo. */
  ghost predicate Tallied(s: State, limbo: set<nat>, owed: int) {
    s.nTried == |TriedIds(s.mapInfo)| && s.nNew == |NewIds(s.mapInfo) - limbo| + owed
  }

  /** Consistency while the entries of `limbo` are in no table and `owed` of them are counted in nNew. */
  ghost predicate Inv(k: Hashing, s: State, limbo: set<nat>, owed: int) {
    && Indexed(s)
    && TriedPlaced(k, s.mapInfo, s.vvTried)
    && NewPlaced(k, s.mapInfo, s.vvNew)
    && Counted(s.mapInfo, s.vvNew, limbo)
    && Tallied(s, limbo, owed)
  }

  // ----- Operations -----

  function Swap(s: State, i: nat, j: nat): (r: State)
    requires i < |s.vRandom| && j < |s.vRandom|
    requires RandomIndex(s.mapInfo, s.vRandom)
    ensures r == s.(mapInfo := r.mapInfo, vRandom := r.vRandom)
    ensures r.mapInfo.Keys == s.mapInfo.Keys
    ensures r.vRandom == s.vRandom[i := s.vRandom[j]][j := s.vRandom[i]]
  {
    if i == j then s else
    var id1, id2 := s.vRandom[i], s.vRandom[j];
    var m1 := s.mapInfo[id1 := s.mapInfo[id1].(nRandomPos := j)];
    var m2 := m1[id2 := m1[id2].(nRandomPos := i)];
    s.(mapInfo := m2, vRandom := s.vRandom[i := id2][j := id1])
  }

  function Create(s: State, addr: Address, source: NetAddr): (r: State)
    ensures r == s.(nIdCount := s.nIdCount + 1, mapInfo := r.mapInfo, mapAddr := r.mapAddr, vRandom := r.vRandom)
  {
    var id := s.nIdCount;
    var peer := Peer(addr.svc, addr.nServices, addr.nTime, source, 0, 0, 0, 0);
    s.(nIdCount := id + 1,
       mapInfo := s.mapInfo[id := Info(peer, 0, false, |s.vRandom|)],
       mapAddr := s.mapAddr[addr.svc.ip := id],
       vRandom := s.vRandom + [id])
  }

  function Delete(s: State, id: nat): (r: State)
    requires Indexed(s) && id in s.mapInfo
    ensures r == s.(mapInfo := r.mapInfo, mapAddr := r.mapAddr, vRandom := r.vRandom, nNew := s.nNew - 1)
    ensures r.mapInfo.Keys == s.mapInfo.Keys - {id}
    ensures r.mapAddr == s.mapAddr - {s.mapInfo[id].peer.svc.ip}
  {
    var last := |s.vRandom| - 1;
    var s1 := Swap(s, s.mapInfo[id].nRandomPos, last);
    s1.(vRandom := s1.vRandom[..last],
        mapAddr := s1.mapAddr - {s.mapInfo[id].peer.svc.ip},
        mapInfo := s1.mapInfo - {id},
        nNew := s1.nNew - 1)
  }

  /** Take one new-table reference away from the occupant of slot t. */
  function DropSlot(s: State, t: Slot): (r: State)
    requires t in s.vvNew && s.vvNew[t] in s.mapInfo
    ensures r == s.(mapInfo := r.mapInfo, vvNew := s.vvNew - {t})
    ensures r.mapInfo.Keys == s.mapInfo.Keys
  {
    var id := s.vvNew[t];
    s.(mapInfo := s.mapInfo[id := s.mapInfo[id].(nRefCount := s.mapInfo[id].nRefCount - 1)],
       vvNew := s.vvNew - {t})
  }

  /** Give entry id one more new-table reference, in slot t. */
  function PutSlot(s: State, t: Slot, id: nat): (r: State)
    requires id in s.mapInfo
    ensures r == s.(mapInfo := r.mapInfo, vvNew := s.vvNew[t := id])
    ensures r.mapInfo.Keys == s.mapInfo.Keys
  {
    s.(mapInfo := s.mapInfo[id := s.mapInfo[id].(nRefCount := s.mapInfo[id].nRefCount + 1)],
       vvNew := s.vvNew[t := id])
  }

  function ClearNew(s: State, t: Slot): (r: State)
    requires Indexed(s)
    requires t in s.vvNew ==> s.vvNew[t] in s.mapInfo
    ensures r.vvNew == s.vvNew - {t} && r.vvTried == s.vvTried
    ensures r.mapInfo.Keys == s.mapInfo.Keys || (t in s.vvNew && r.mapInfo.Keys == s.mapInfo.Keys - {s.vvNew[t]})
  {
    if t !in s.vvNew then s else
    var id := s.vvNew[t];
    DropSlotIndexed(s, t);
    if s.mapInfo[id].nRefCount == 1 then Delete(DropSlot(s, t), id) else DropSlot(s, t)
  }

  /** Take an entry out of the new table, wherever it is. */
  ghost function Unplace(s: State, id: nat): (r: State)
    requires id in s.mapInfo
    ensures r == s.(mapInfo := r.mapInfo, vvNew := s.vvNew - SlotsOf(s.vvNew, id), nNew := s.nNew - 1)
    ensures r.mapInfo.Keys == s.mapInfo.Keys
  {
    s.(mapInfo := s.mapInfo[id := s.mapInfo[id].(nRefCount := 0)],
       vvNew := s.vvNew - SlotsOf(s.vvNew, id),
       nNew := s.nNew - 1)
  }

  /** Take the occupant of tried slot t out of the tried table. */
  function UnsetTried(s: State, t: Slot): (r: State)
    requires t in s.vvTried && s.vvTried[t] in s.mapInfo
    ensures r == s.(mapInfo := r.mapInfo, vvTried := s.vvTried - {t}, nTried := s.nTried - 1)
    ensures r.mapInfo.Keys == s.mapInfo.Keys
  {
    var id := s.vvTried[t];
    s.(mapInfo := s.mapInfo[id := s.mapInfo[id].(fInTried := false)],
       vvTried := s.vvTried - {t},
       nTried := s.nTried - 1)
  }

  /** Enter id into the tried table at slot t. */
  function SetTried(s: State, t: Slot, id: nat): (r: State)
    requires id in s.mapInfo
    ensures r == s.(mapInfo := r.mapInfo, vvTried := s.vvTried[t := id], nTried := s.nTried + 1)
    ensures r.mapInfo.Keys == s.mapInfo.Keys
  {
    s.(mapInfo := s.mapInfo[id := s.mapInfo[id].(fInTried := true)],
       vvTried := s.vvTried[t := id],
       nTried := s.nTried + 1)
  }

  // ----- Every operation keeps the tables consistent -----

  lemma SlotsDrop<X(!new)>(m: map<Slot, X>, t: Slot, x: X)
    requires t in m
    ensures SlotsOf(m - {t}, x) == SlotsOf(m, x) - {t}
    ensures |SlotsOf(m - {t}, x)| == |SlotsOf(m, x)| - if m[t] == x then 1 else 0
  {
    assert t in SlotsOf(m, x) <==> m[t] == x;
  }

  lemma SlotsPut<X(!new)>(m: map<Slot, X>, t: Slot, y: X, x: X)
    requires t !in m
    ensures |SlotsOf(m[t := y], x)| == |SlotsOf(m, x)| + if y == x then 1 else 0
  {
    assert t !in SlotsOf(m, x);
    assert SlotsOf(m[t := y], x) == if y == x then SlotsOf(m, x) + {t} else SlotsOf(m, x);
  }

  /** The two entry maps agree on everything but the positions in vRandom. */
  ghost predicate SameEntries(m: map<nat, Info>, n: map<nat, Info>) {
    && m.Keys == n.Keys
    && forall id :: id in m ==>
         m[id].peer == n[id].peer && m[id].nRefCount == n[id].nRefCount && m[id].fInTried == n[id].fInTried
  }

  lemma SwapIndexed(s: State, i: nat, j: nat)
    requires Indexed(s)
    requires i < |s.vRandom| && j < |s.vRandom|
    ensures Indexed(Swap(s, i, j))
    ensures SameEntries(s.mapInfo, Swap(s, i, j).mapInfo)
  {
    hide AddrIndex, RandomIndex, Swap;
    var r := Swap(s, i, j);
    if i == j {
      SwapNothing(s, i);
    } else {
      forall id | id in s.mapInfo ensures r.mapInfo[id] == Moved(s, i, j, id) { SwapAt(s, i, j, id); }
      SwapRandomIndex(s.mapInfo, s.vRandom, i, j, r.mapInfo, r.vRandom);
      SameEntriesIndex(s.mapInfo, r.mapInfo, s.mapAddr);
    }
  }

  lemma SwapNothing(s: State, i: nat)
    requires RandomIndex(s.mapInfo, s.vRandom) && i < |s.vRandom|
    ensures Swap(s, i, i) == s
  {
    hide RandomIndex;
  }

  /** Entry id after the swap of positions i and j. */
  ghost function Moved(s: State, i: nat, j: nat, id: nat): Info
    requires i < |s.vRandom| && j < |s.vRandom| && id in s.mapInfo
  {
    var x := s.mapInfo[id];
    x.(nRandomPos := if id == s.vRandom[i] then j else if id == s.vRandom[j] then i else x.nRandomPos)
  }

  lemma SwapAt(s: State, i: nat, j: nat, id: nat)
    requires RandomIndex(s.mapInfo, s.vRandom) && i < |s.vRandom| && j < |s.vRandom| && i != j && id in s.mapInfo
    ensures id in Swap(s, i, j).mapInfo && Swap(s, i, j).mapInfo[id] == Moved(s, i, j, id)
  {
    assert HasPos(s.mapInfo, s.vRandom[i], i);
    assert HasPos(s.mapInfo, s.vRandom[j], j);
    hide RandomIndex;
  }

  lemma SwapRandomIndex(info: map<nat, Info>, random: seq<nat>, i: nat, j: nat, info': map<nat, Info>,
                        random': seq<nat>)
    requires RandomIndex(info, random)
    requires i < |random| && j < |random| && i != j
    requires random' == random[i := random[j]][j := random[i]]
    requires info'.Keys == info.Keys
    requires forall id :: id in info ==>
               (info'[id].nRandomPos ==
                  if id == random[i] then j else if id == random[j] then i else info[id].nRandomPos)
    ensures RandomIndex(info', random')
  {
    forall p | 0 <= p < |random'| ensures HasPos(info', random'[p], p) {
      assert HasPos(info, random[p], p);
      assert HasPos(info, random[i], i);
      assert HasPos(info, random[j], j);
    }
    forall id | id in info' ensures info'[id].nRandomPos < |random'| && random'[info'[id].nRandomPos] == id {
      assert id in info;
    }
  }

  lemma SameEntriesIndex(m: map<nat, Info>, n: map<nat, Info>, addr: map<NetAddr, nat>)
    requires SameEntries(m, n) && AddrIndex(m, addr)
    ensures AddrIndex(n, addr)
  {
  }

  lemma SameEntriesPlaced(k: Hashing, m: map<nat, Info>, n: map<nat, Info>, vvNew: map<Slot, nat>,
                          vvTried: map<Slot, nat>)
    requires SameEntries(m, n) && NewPlaced(k, m, vvNew) && TriedPlaced(k, m, vvTried)
    ensures NewPlaced(k, n, vvNew) && TriedPlaced(k, n, vvTried)
  {
  }

  lemma SameEntriesCounted(m: map<nat, Info>, n: map<nat, Info>, vvNew: map<Slot, nat>, limbo: set<nat>)
    requires SameEntries(m, n) && Counted(m, vvNew, limbo)
    ensures Counted(n, vvNew, limbo)
    ensures NewIds(m) == NewIds(n) && TriedIds(m) == TriedIds(n)
  {
  }

  lemma SameEntriesKeep(k: Hashing, s: State, r: State, limbo: set<nat>, owed: int)
    requires Inv(k, s, limbo, owed)
    requires SameEntries(s.mapInfo, r.mapInfo) && Indexed(r)
    requires r.vvNew == s.vvNew && r.vvTried == s.vvTried && r.nNew == s.nNew && r.nTried == s.nTried
    ensures Inv(k, r, limbo, owed)
  {
    hide SameEntries, AddrIndex, RandomIndex, TriedPlaced, NewPlaced, Counted;
    SameEntriesPlaced(k, s.mapInfo, r.mapInfo, s.vvNew, s.vvTried);
    SameEntriesCounted(s.mapInfo, r.mapInfo, s.vvNew, limbo);
  }

  lemma SwapKeeps(k: Hashing, s: State, i: nat, j: nat, limbo: set<nat>, owed: int)
    requires Inv(k, s, limbo, owed)
    requires i < |s.vRandom| && j < |s.vRandom|
    ensures Inv(k, Swap(s, i, j), limbo, owed)
  {
    hide Swap, AddrIndex, RandomIndex, TriedPlaced, NewPlaced, Counted, SameEntries;
    SwapIndexed(s, i, j);
    SameEntriesKeep(k, s, Swap(s, i, j), limbo, owed);
  }

  lemma UpdateIndexed(info: map<nat, Info>, addr: map<NetAddr, nat>, random: seq<nat>, id: nat, x: Info)
    requires AddrIndex(info, addr) && RandomIndex(info, random)
    requires id in info && x.peer.svc.ip == info[id].peer.svc.ip && x.nRandomPos == info[id].nRandomPos
    ensures AddrIndex(info[id := x], addr) && RandomIndex(info[id := x], random)
  {
  }

  lemma DropSlotIndexed(s: State, t: Slot)
    requires Indexed(s)
    requires t in s.vvNew && s.vvNew[t] in s.mapInfo
    ensures Indexed(DropSlot(s, t))
  {
    hide AddrIndex, RandomIndex;
    var id := s.vvNew[t];
    UpdateIndexed(s.mapInfo, s.mapAddr, s.vRandom, id, s.mapInfo[id].(nRefCount := s.mapInfo[id].nRefCount - 1));
  }

  // A change to one entry that leaves its service and position alone.

  lemma UpdateTried(k: Hashing, info: map<nat, Info>, table: map<Slot, nat>, id: nat, x: Info)
    requires TriedPlaced(k, info, table)
    requires id in info && x.peer.svc == info[id].peer.svc && x.fInTried == info[id].fInTried
    ensures TriedPlaced(k, info[id := x], table)
  {
  }

  lemma UpdateNew(k: Hashing, info: map<nat, Info>, table: map<Slot, nat>, id: nat, x: Info)
    requires NewPlaced(k, info, table)
    requires id in info && x.peer.svc == info[id].peer.svc
    requires x.fInTried ==> SlotsOf(table, id) == {}
    ensures NewPlaced(k, info[id := x], table)
  {
    forall t | t in table ensures OwnsNew(k, info[id := x], table[t], t) {
      assert OwnsNew(k, info, table[t], t);
      assert table[t] == id ==> t in SlotsOf(table, id);
    }
  }

  lemma DropSlotCounted(info: map<nat, Info>, table: map<Slot, nat>, limbo: set<nat>, t: Slot)
    requires Counted(info, table, limbo)
    requires t in table && table[t] in info && !info[table[t]].fInTried
    ensures table[t] !in limbo && info[table[t]].nRefCount >= 1
    ensures var id, ref := table[t], info[table[t]].nRefCount - 1;
            Counted(info[id := info[id].(nRefCount := ref)], table - {t}, if ref == 0 then limbo + {id} else limbo)
  {
    var id := table[t];
    assert t in SlotsOf(table, id);
    var info' := info[id := info[id].(nRefCount := info[id].nRefCount - 1)];
    forall x | x in info' ensures info'[x].nRefCount == |SlotsOf(table - {t}, x)| {
      SlotsDrop(table, t, x);
    }
  }

  lemma DropSlotPlaced(k: Hashing, info: map<nat, Info>, table: map<Slot, nat>, t: Slot)
    requires NewPlaced(k, info, table) && t in table
    ensures OwnsNew(k, info, table[t], t)
    ensures NewPlaced(k, info, table - {t})
  {
  }

  lemma UpdateIds(info: map<nat, Info>, id: nat, x: Info)
    requires id in info && x.fInTried == info[id].fInTried
    ensures NewIds(info[id := x]) == NewIds(info) && TriedIds(info[id := x]) == TriedIds(info)
  {
  }

  lemma DropSlotKeeps(k: Hashing, s: State, t: Slot, limbo: set<nat>, owed: int)
    requires Inv(k, s, limbo, owed)
    requires t in s.vvNew
    ensures s.vvNew[t] in s.mapInfo && s.vvNew[t] !in limbo && s.mapInfo[s.vvNew[t]].nRefCount >= 1
    ensures if s.mapInfo[s.vvNew[t]].nRefCount == 1
            then Inv(k, DropSlot(s, t), limbo + {s.vvNew[t]}, owed + 1)
            else Inv(k, DropSlot(s, t), limbo, owed)
  {
    hide AddrIndex, RandomIndex, TriedPlaced, NewPlaced, Counted;
    var id := s.vvNew[t];
    DropSlotPlaced(k, s.mapInfo, s.vvNew, t);
    DropSlotIndexed(s, t);
    var x := s.mapInfo[id].(nRefCount := s.mapInfo[id].nRefCount - 1);
    UpdateTried(k, s.mapInfo, s.vvTried, id, x);
    UpdateNew(k, s.mapInfo, s.vvNew - {t}, id, x);
    DropSlotCounted(s.mapInfo, s.vvNew, limbo, t);
    UpdateIds(s.mapInfo, id, x);
    assert NewIds(s.mapInfo) - (limbo + {id}) == (NewIds(s.mapInfo) - limbo) - {id};
  }

  lemma AppendIndexed(info: map<nat, Info>, addr: map<NetAddr, nat>, random: seq<nat>, id: nat, x: Info)
    requires AddrIndex(info, addr) && RandomIndex(info, random)
    requires id !in info && x.peer.svc.ip !in addr && x.nRandomPos == |random|
    ensures AddrIndex(info[id := x], addr[x.peer.svc.ip := id])
    ensures RandomIndex(info[id := x], random + [id])
  {
    assert AddrIndex(info[id := x], addr[x.peer.svc.ip := id]) by { hide RandomIndex; }
    assert RandomIndex(info[id := x], random + [id]) by { hide AddrIndex; }
  }

  lemma RemoveLastIndexed(info: map<nat, Info>, addr: map<NetAddr, nat>, random: seq<nat>, id: nat)
    requires AddrIndex(info, addr) && RandomIndex(info, random)
    requires id in info && |random| > 0 && random[|random| - 1] == id
    ensures AddrIndex(info - {id}, addr - {info[id].peer.svc.ip})
    ensures RandomIndex(info - {id}, random[..|random| - 1])
  {
    assert AddrIndex(info - {id}, addr - {info[id].peer.svc.ip}) by { hide RandomIndex; }
    assert RandomIndex(info - {id}, random[..|random| - 1]) by { hide AddrIndex; }
  }

  lemma CreatePlaced(k: Hashing, info: map<nat, Info>, vvNew: map<Slot, nat>, vvTried: map<Slot, nat>, id: nat, x: Info)
    requires NewPlaced(k, info, vvNew) && TriedPlaced(k, info, vvTried)
    requires id !in info && !x.fInTried
    ensures NewPlaced(k, info[id := x], vvNew) && TriedPlaced(k, info[id := x], vvTried)
    ensures SlotsOf(vvNew, id) == {}
  {
    assert forall t :: t in vvNew ==> OwnsNew(k, info, vvNew[t], t);
  }

  lemma CreateCounted(info: map<nat, Info>, vvNew: map<Slot, nat>, id: nat, x: Info)
    requires Counted(info, vvNew, {})
    requires id !in info && SlotsOf(vvNew, id) == {}
    requires !x.fInTried && x.nRefCount == 0
    ensures Counted(info[id := x], vvNew, {id})
    ensures NewIds(info[id := x]) - {id} == NewIds(info) && TriedIds(info[id := x]) == TriedIds(info)
  {
  }

  lemma CreateKeeps(k: Hashing, s: State, addr: Address, source: NetAddr)
    requires Inv(k, s, {}, 0) && addr.svc.ip !in s.mapAddr
    ensures Inv(k, Create(s, addr, source), {s.nIdCount}, 0)
  {
    hide AddrIndex, RandomIndex, TriedPlaced, NewPlaced, Counted;
    var x := Info(Peer(addr.svc, addr.nServices, addr.nTime, source, 0, 0, 0, 0), 0, false, |s.vRandom|);
    assert s.nIdCount !in s.mapInfo;
    AppendIndexed(s.mapInfo, s.mapAddr, s.vRandom, s.nIdCount, x);
    CreatePlaced(k, s.mapInfo, s.vvNew, s.vvTried, s.nIdCount, x);
    CreateCounted(s.mapInfo, s.vvNew, s.nIdCount, x);
    assert NewIds(s.mapInfo) - {} == NewIds(s.mapInfo);
  }

  lemma PositionOf(info: map<nat, Info>, random: seq<nat>, id: nat)
    requires RandomIndex(info, random) && id in info
    ensures info[id].nRandomPos < |random| && random[info[id].nRandomPos] == id
  {
  }

  lemma DeleteIndexed(s: State, id: nat)
    requires Indexed(s) && id in s.mapInfo
    ensures Indexed(Delete(s, id))
    ensures SameEntries(s.mapInfo - {id}, Delete(s, id).mapInfo)
  {
    hide AddrIndex, RandomIndex, Swap;
    PositionOf(s.mapInfo, s.vRandom, id);
    var last := |s.vRandom| - 1;
    var p := s.mapInfo[id].nRandomPos;
    var s1 := Swap(s, p, last);
    SwapIndexed(s, p, last);
    RemoveLastIndexed(s1.mapInfo, s1.mapAddr, s1.vRandom, id);
    assert s1.mapInfo[id].peer == s.mapInfo[id].peer;
  }

  lemma DeletePlaced(k: Hashing, info: map<nat, Info>, vvNew: map<Slot, nat>, vvTried: map<Slot, nat>, id: nat)
    requires NewPlaced(k, info, vvNew) && TriedPlaced(k, info, vvTried)
    requires id in info && !info[id].fInTried && SlotsOf(vvNew, id) == {}
    ensures NewPlaced(k, info - {id}, vvNew) && TriedPlaced(k, info - {id}, vvTried)
  {
    forall t | t in vvNew ensures OwnsNew(k, info - {id}, vvNew[t], t) {
      assert t !in SlotsOf(vvNew, id);
      assert OwnsNew(k, info, vvNew[t], t);
    }
  }

  lemma DeleteCounted(info: map<nat, Info>, vvNew: map<Slot, nat>, limbo: set<nat>, id: nat)
    requires Counted(info, vvNew, limbo) && id in limbo
    ensures id in info && !info[id].fInTried && SlotsOf(vvNew, id) == {}
    ensures Counted(info - {id}, vvNew, limbo - {id})
    ensures NewIds(info - {id}) - (limbo - {id}) == NewIds(info) - limbo
    ensures TriedIds(info - {id}) == TriedIds(info)
  {
    assert |SlotsOf(vvNew, id)| == 0;
  }

  lemma DeleteKeeps(k: Hashing, s: State, id: nat, limbo: set<nat>, owed: int)
    requires Inv(k, s, limbo, owed) && id in limbo && id in s.mapInfo
    ensures Inv(k, Delete(s, id), limbo - {id}, owed - 1)
  {
    hide AddrIndex, RandomIndex, TriedPlaced, NewPlaced, Counted, Delete, SameEntries;
    DeleteIndexed(s, id);
    DeleteCounted(s.mapInfo, s.vvNew, limbo, id);
    DeletePlaced(k, s.mapInfo, s.vvNew, s.vvTried, id);
    var r := Delete(s, id);
    SameEntriesPlaced(k, s.mapInfo - {id}, r.mapInfo, s.vvNew, s.vvTried);
    SameEntriesCounted(s.mapInfo - {id}, r.mapInfo, s.vvNew, limbo - {id});
  }

  lemma ClearNewKeeps(k: Hashing, s: State, t: Slot, limbo: set<nat>, owed: int)
    requires Inv(k, s, limbo, owed)
    ensures t in s.vvNew ==> s.vvNew[t] in s.mapInfo && s.vvNew[t] !in limbo
    ensures Inv(k, ClearNew(s, t), limbo, owed)
  {
    hide Indexed, TriedPlaced, NewPlaced, Counted, Tallied, Delete, DropSlot;
    if t in s.vvNew {
      var id := s.vvNew[t];
      DropSlotKeeps(k, s, t, limbo, owed);
      if s.mapInfo[id].nRefCount == 1 {
        DeleteKeeps(k, DropSlot(s, t), id, limbo + {id}, owed + 1);
        assert limbo + {id} - {id} == limbo;
      }
    } else {
      assert s.vvNew - {t} == s.vvNew;
    }
  }

  lemma PutSlotPlaced(k: Hashing, info: map<nat, Info>, table: map<Slot, nat>, t: Slot, id: nat, x: Info)
    requires NewPlaced(k, info, table) && OwnsNew(k, info, id, t)
    requires x.peer == info[id].peer && !x.fInTried
    ensures NewPlaced(k, info[id := x], table[t := id])
  {
    var table' := table[t := id];
    forall u | u in table' ensures OwnsNew(k, info[id := x], table'[u], u) {
      assert u != t ==> OwnsNew(k, info, table[u], u);
    }
  }

  lemma PutSlotCounted(info: map<nat, Info>, table: map<Slot, nat>, limbo: set<nat>, t: Slot, id: nat)
    requires Counted(info, table, limbo)
    requires t !in table && id in info && !info[id].fInTried && info[id].nRefCount < NEW_BUCKETS_PER_ADDRESS
    ensures Counted(info[id := info[id].(nRefCount := info[id].nRefCount + 1)], table[t := id], limbo - {id})
  {
    var info' := info[id := info[id].(nRefCount := info[id].nRefCount + 1)];
    forall x | x in info' ensures info'[x].nRefCount == |SlotsOf(table[t := id], x)| {
      SlotsPut(table, t, id, x);
      assert info[x].nRefCount == |SlotsOf(table, x)|;
    }
  }

  lemma PutSlotKeeps(k: Hashing, s: State, t: Slot, id: nat, limbo: set<nat>, owed: int)
    requires Inv(k, s, limbo, owed)
    requires t !in s.vvNew && OwnsNew(k, s.mapInfo, id, t) && s.mapInfo[id].nRefCount < NEW_BUCKETS_PER_ADDRESS
    ensures Inv(k, PutSlot(s, t, id), limbo - {id}, if id in limbo then owed - 1 else owed)
  {
    hide AddrIndex, RandomIndex, TriedPlaced, NewPlaced, Counted;
    var x := s.mapInfo[id].(nRefCount := s.mapInfo[id].nRefCount + 1);
    UpdateIndexed(s.mapInfo, s.mapAddr, s.vRandom, id, x);
    UpdateTried(k, s.mapInfo, s.vvTried, id, x);
    PutSlotPlaced(k, s.mapInfo, s.vvNew, t, id, x);
    PutSlotCounted(s.mapInfo, s.vvNew, limbo, t, id);
    UpdateIds(s.mapInfo, id, x);
    if id in limbo {
      assert NewIds(s.mapInfo) - (limbo - {id}) == (NewIds(s.mapInfo) - limbo) + {id};
    } else {
      assert limbo - {id} == limbo;
    }
  }

  lemma UnplacePlaced(k: Hashing, info: map<nat, Info>, table: map<Slot, nat>, id: nat)
    requires NewPlaced(k, info, table) && id in info
    ensures NewPlaced(k, info[id := info[id].(nRefCount := 0)], table - SlotsOf(table, id))
  {
    var info' := info[id := info[id].(nRefCount := 0)];
    forall u | u in table - SlotsOf(table, id) ensures OwnsNew(k, info', table[u], u) {
      assert OwnsNew(k, info, table[u], u);
    }
  }

  lemma UnplaceCounted(info: map<nat, Info>, table: map<Slot, nat>, id: nat)
    requires Counted(info, table, {}) && id in info && !info[id].fInTried
    ensures Counted(info[id := info[id].(nRefCount := 0)], table - SlotsOf(table, id), {id})
  {
    var info' := info[id := info[id].(nRefCount := 0)];
    var table' := table - SlotsOf(table, id);
    forall x | x in info' ensures info'[x].nRefCount == |SlotsOf(table', x)| {
      assert SlotsOf(table', x) == if x == id then {} else SlotsOf(table, x);
      assert info[x].nRefCount == |SlotsOf(table, x)|;
    }
  }

  lemma UnplaceKeeps(k: Hashing, s: State, id: nat)
    requires Inv(k, s, {}, 0) && id in s.mapInfo && !s.mapInfo[id].fInTried
    ensures Inv(k, Unplace(s, id), {id}, 0)
  {
    hide AddrIndex, RandomIndex, TriedPlaced, NewPlaced, Counted;
    var x := s.mapInfo[id].(nRefCount := 0);
    UpdateIndexed(s.mapInfo, s.mapAddr, s.vRandom, id, x);
    UpdateTried(k, s.mapInfo, s.vvTried, id, x);
    UnplacePlaced(k, s.mapInfo, s.vvNew, id);
    UnplaceCounted(s.mapInfo, s.vvNew, id);
    UpdateIds(s.mapInfo, id, x);
    assert NewIds(s.mapInfo) - {} == NewIds(s.mapInfo);
  }

  lemma NoSlots(k: Hashing, info: map<nat, Info>, table: map<Slot, nat>, id: nat)
    requires NewPlaced(k, info, table) && id in info && info[id].fInTried
    ensures SlotsOf(table, id) == {}
  {
    forall t | t in table ensures table[t] != id {
      assert OwnsNew(k, info, table[t], t);
    }
  }

  lemma UnsetTriedPlaced(k: Hashing, info: map<nat, Info>, vvNew: map<Slot, nat>, vvTried: map<Slot, nat>, t: Slot)
    requires NewPlaced(k, info, vvNew) && TriedPlaced(k, info, vvTried) && t in vvTried
    ensures OwnsTried(k, info, vvTried[t], t)
    ensures var id := vvTried[t]; var info' := info[id := info[id].(fInTried := false)];
            NewPlaced(k, info', vvNew) && TriedPlaced(k, info', vvTried - {t})
  {
    var id := vvTried[t];
    assert OwnsTried(k, info, id, t);
    var info' := info[id := info[id].(fInTried := false)];
    assert NewPlaced(k, info', vvNew) by {
      NoSlots(k, info, vvNew, id);
      UpdateNew(k, info, vvNew, id, info'[id]);
    }
  }

  lemma UnsetTriedCounted(k: Hashing, info: map<nat, Info>, table: map<Slot, nat>, limbo: set<nat>, id: nat)
    requires Counted(info, table, limbo) && NewPlaced(k, info, table)
    requires id in info && info[id].fInTried
    ensures info[id].nRefCount == 0 && id !in limbo
    ensures var info' := info[id := info[id].(fInTried := false)];
            && Counted(info', table, limbo + {id})
            && NewIds(info') - (limbo + {id}) == NewIds(info) - limbo
            && TriedIds(info') == TriedIds(info) - {id}
  {
    NoSlots(k, info, table, id);
    hide NewPlaced;
    assert |SlotsOf(table, id)| == 0;
  }

  lemma UnsetTriedKeeps(k: Hashing, s: State, t: Slot, limbo: set<nat>, owed: int)
    requires Inv(k, s, limbo, owed) && t in s.vvTried
    ensures s.vvTried[t] in s.mapInfo && s.vvTried[t] !in limbo
    ensures Inv(k, UnsetTried(s, t), limbo + {s.vvTried[t]}, owed)
  {
    hide AddrIndex, RandomIndex, TriedPlaced, NewPlaced, Counted;
    var id := s.vvTried[t];
    UnsetTriedPlaced(k, s.mapInfo, s.vvNew, s.vvTried, t);
    var x := s.mapInfo[id].(fInTried := false);
    UpdateIndexed(s.mapInfo, s.mapAddr, s.vRandom, id, x);
    UnsetTriedCounted(k, s.mapInfo, s.vvNew, limbo, id);
  }

  lemma SetTriedPlaced(k: Hashing, info: map<nat, Info>, vvNew: map<Slot, nat>, vvTried: map<Slot, nat>, t: Slot,
                       id: nat)
    requires NewPlaced(k, info, vvNew) && TriedPlaced(k, info, vvTried)
    requires id in info && !info[id].fInTried && SlotsOf(vvNew, id) == {}
    requires t == k.TriedSlot(info[id].peer.svc) && t !in vvTried
    ensures var info' := info[id := info[id].(fInTried := true)];
            NewPlaced(k, info', vvNew) && TriedPlaced(k, info', vvTried[t := id])
  {
    var info' := info[id := info[id].(fInTried := true)];
    UpdateNew(k, info, vvNew, id, info'[id]);
    hide NewPlaced;
    forall u | u in vvTried ensures OwnsTried(k, info', vvTried[u], u) {
      assert OwnsTried(k, info, vvTried[u], u);
    }
  }

  lemma SetTriedCounted(info: map<nat, Info>, table: map<Slot, nat>, limbo: set<nat>, id: nat)
    requires Counted(info, table, limbo) && id in limbo && id in info
    ensures SlotsOf(table, id) == {} && !info[id].fInTried
    ensures var info' := info[id := info[id].(fInTried := true)];
            && Counted(info', table, limbo - {id})
            && NewIds(info') - (limbo - {id}) == NewIds(info) - limbo
            && TriedIds(info') == TriedIds(info) + {id}
  {
    assert |SlotsOf(table, id)| == 0;
  }

  lemma SetTriedKeeps(k: Hashing, s: State, t: Slot, id: nat, limbo: set<nat>, owed: int)
    requires Inv(k, s, limbo, owed) && id in limbo && id in s.mapInfo
    requires t == k.TriedSlot(s.mapInfo[id].peer.svc) && t !in s.vvTried
    ensures Inv(k, SetTried(s, t, id), limbo - {id}, owed)
  {
    hide AddrIndex, RandomIndex, TriedPlaced, NewPlaced, Counted;
    var x := s.mapInfo[id].(fInTried := true);
    UpdateIndexed(s.mapInfo, s.mapAddr, s.vRandom, id, x);
    SetTriedCounted(s.mapInfo, s.vvNew, limbo, id);
    SetTriedPlaced(k, s.mapInfo, s.vvNew, s.vvTried, t, id);
  }

  /** ClearNew changes nothing about the other entries, and at most the reference count of the occupant. */
  lemma ClearNewOthers(s: State, t: Slot)
    requires Indexed(s)
    requires t in s.vvNew ==> s.vvNew[t] in s.mapInfo
    ensures var r := ClearNew(s, t);
            forall id :: id in r.mapInfo ==>
              && id in s.mapInfo
              && r.mapInfo[id].peer == s.mapInfo[id].peer
              && r.mapInfo[id].fInTried == s.mapInfo[id].fInTried
              && ((t in s.vvNew && s.vvNew[t] == id) || r.mapInfo[id].nRefCount == s.mapInfo[id].nRefCount)
  {
    if t in s.vvNew && s.mapInfo[s.vvNew[t]].nRefCount == 1 {
      DropSlotIndexed(s, t);
      DeleteIndexed(DropSlot(s, t), s.vvNew[t]);
      hide Indexed, Delete;
    }
  }

  // ----- The operations of CAddrMan -----

  /** Put entry id, which is in no table, into the new-table slot its source selects. */
  ghost function Readmit(k: Hashing, s: State, id: nat): (r: State)
    requires Indexed(s) && id in s.mapInfo
    requires var u := k.NewSlot(s.mapInfo[id].peer.svc, s.mapInfo[id].peer.source);
             u in s.vvNew ==> s.vvNew[u] in s.mapInfo && s.vvNew[u] != id
  {
    var u := k.NewSlot(s.mapInfo[id].peer.svc, s.mapInfo[id].peer.source);
    var s1 := PutSlot(ClearNew(s, u), u, id);
    s1.(nNew := s1.nNew + 1)
  }

  lemma ReadmitKeeps(k: Hashing, s: State, id: nat, limbo: set<nat>)
    requires Inv(k, s, limbo, 0) && id in limbo
    ensures id in s.mapInfo
    ensures var u := k.NewSlot(s.mapInfo[id].peer.svc, s.mapInfo[id].peer.source);
            u in s.vvNew ==> s.vvNew[u] in s.mapInfo && s.vvNew[u] != id
    ensures Inv(k, Readmit(k, s, id), limbo - {id}, 0)
    ensures Readmit(k, s, id).vvTried == s.vvTried
    ensures forall x :: x in limbo ==> x in s.mapInfo && x in Readmit(k, s, id).mapInfo
    ensures forall x :: x in limbo ==> Readmit(k, s, id).mapInfo[x].peer == s.mapInfo[x].peer
  {
    hide Indexed, TriedPlaced, NewPlaced, Counted, Tallied, ClearNew, SlotsOf;
    LimboIn(s, limbo);
    var u := k.NewSlot(s.mapInfo[id].peer.svc, s.mapInfo[id].peer.source);
    ClearNewKeeps(k, s, u, limbo, 0);
    ClearNewOthers(s, u);
    var s1 := ClearNew(s, u);
    LimboIn(s1, limbo);
    PutSlotKeeps(k, s1, u, id, limbo, 0);
    TallyUp(k, PutSlot(s1, u, id), limbo - {id}, -1, 1);
  }

  lemma TallyUp(k: Hashing, s: State, limbo: set<nat>, owed: int, d: int)
    requires Inv(k, s, limbo, owed)
    ensures Inv(k, s.(nNew := s.nNew + d), limbo, owed + d)
  {
    hide AddrIndex, RandomIndex, TriedPlaced, NewPlaced, Counted, NewIds, TriedIds;
  }

  lemma LimboIn(s: State, limbo: set<nat>)
    requires Counted(s.mapInfo, s.vvNew, limbo)
    ensures forall id :: id in limbo ==> id in s.mapInfo && !s.mapInfo[id].fInTried && s.mapInfo[id].nRefCount == 0
  {
  }

  /** Move the occupant of tried slot t back to the new table. */
  ghost function Evict(k: Hashing, s: State, t: Slot, limbo: set<nat>): State
    requires Inv(k, s, limbo, 0) && t in s.vvTried
  {
    UnsetTriedKeeps(k, s, t, limbo, 0);
    ReadmitKeeps(k, UnsetTried(s, t), s.vvTried[t], limbo + {s.vvTried[t]});
    Readmit(k, UnsetTried(s, t), s.vvTried[t])
  }

  lemma EvictKeeps(k: Hashing, s: State, t: Slot, limbo: set<nat>)
    requires Inv(k, s, limbo, 0) && t in s.vvTried
    ensures Inv(k, Evict(k, s, t, limbo), limbo, 0)
    ensures Evict(k, s, t, limbo).vvTried == s.vvTried - {t}
    ensures forall id :: id in limbo ==> id in s.mapInfo && id in Evict(k, s, t, limbo).mapInfo
    ensures forall id :: id in limbo ==> Evict(k, s, t, limbo).mapInfo[id].peer == s.mapInfo[id].peer
  {
    hide Indexed, TriedPlaced, NewPlaced, Counted, Tallied, Readmit, SlotsOf;
    UnsetTriedKeeps(k, s, t, limbo, 0);
    var id := s.vvTried[t];
    ReadmitKeeps(k, UnsetTried(s, t), id, limbo + {id});
    assert limbo + {id} - {id} == limbo;
    assert forall x :: x in limbo ==> x in limbo + {id};
  }

  /** MakeTried (src/addrman.cpp:149-195). */
  ghost function MakeTried(k: Hashing, s: State, id: nat): State
    requires Inv(k, s, {}, 0)
    requires id in s.mapInfo && !s.mapInfo[id].fInTried
  {
    var t := k.TriedSlot(s.mapInfo[id].peer.svc);
    UnplaceKeeps(k, s, id);
    var s1 := Unplace(s, id);
    var s2 := if t in s1.vvTried then EvictKeeps(k, s1, t, {id}); Evict(k, s1, t, {id}) else s1;
    SetTried(s2, t, id)
  }

  lemma MakeTriedKeeps(k: Hashing, s: State, id: nat)
    requires Inv(k, s, {}, 0)
    requires id in s.mapInfo && !s.mapInfo[id].fInTried
    ensures Inv(k, MakeTried(k, s, id), {}, 0)
  {
    hide Indexed, TriedPlaced, NewPlaced, Counted, Tallied, Evict, SlotsOf;
    var t := k.TriedSlot(s.mapInfo[id].peer.svc);
    UnplaceKeeps(k, s, id);
    var s1 := Unplace(s, id);
    if t in s1.vvTried { EvictKeeps(k, s1, t, {id}); }
    var s2 := if t in s1.vvTried then Evict(k, s1, t, {id}) else s1;
    SetTriedKeeps(k, s2, t, id, {id}, 0);
    assert {id} - {id} == {};
  }

  /** Replace what is known about peer id. */
  ghost function Touch(s: State, id: nat, p: Peer): State
    requires id in s.mapInfo
  {
    s.(mapInfo := s.mapInfo[id := s.mapInfo[id].(peer := p)])
  }

  lemma TouchCounted(info: map<nat, Info>, table: map<Slot, nat>, limbo: set<nat>, id: nat, p: Peer)
    requires Counted(info, table, limbo) && id in info
    ensures var info' := info[id := info[id].(peer := p)];
            && Counted(info', table, limbo)
            && NewIds(info') == NewIds(info) && TriedIds(info') == TriedIds(info)
  {
  }

  lemma TouchKeeps(k: Hashing, s: State, id: nat, p: Peer, limbo: set<nat>, owed: int)
    requires Inv(k, s, limbo, owed) && id in s.mapInfo && p.svc == s.mapInfo[id].peer.svc
    ensures Inv(k, Touch(s, id, p), limbo, owed)
  {
    hide AddrIndex, RandomIndex, TriedPlaced, NewPlaced, Counted;
    var x := s.mapInfo[id].(peer := p);
    UpdateIndexed(s.mapInfo, s.mapAddr, s.vRandom, id, x);
    UpdateTried(k, s.mapInfo, s.vvTried, id, x);
    if x.fInTried { NoSlots(k, s.mapInfo, s.vvNew, id); }
    UpdateNew(k, s.mapInfo, s.vvNew, id, x);
    TouchCounted(s.mapInfo, s.vvNew, limbo, id, p);
  }

  /** Good_ (src/addrman.cpp:197-247), for a peer that answered at nTime. */
  ghost function Good(k: Hashing, s: State, svc: Service, nTime: int): State
    requires Inv(k, s, {}, 0)
  {
    var s0 := s.(nLastGood := nTime);
    GoodTimeKeeps(k, s, nTime);
    if svc.ip !in s.mapAddr then s0 else
    var id := s.mapAddr[svc.ip];
    assert HasAddr(s.mapInfo, id, svc.ip);
    if s.mapInfo[id].peer.svc != svc then s0 else
    var p := s.mapInfo[id].peer.(nLastSuccess := nTime, nLastTry := nTime, nAttempts := 0);
    TouchKeeps(k, s0, id, p, {}, 0);
    var s1 := Touch(s0, id, p);
    if s1.mapInfo[id].fInTried then s1 else MakeTried(k, s1, id)
  }

  lemma GoodTimeKeeps(k: Hashing, s: State, nTime: int)
    requires Inv(k, s, {}, 0)
    ensures Inv(k, s.(nLastGood := nTime), {}, 0)
  {
    hide AddrIndex, RandomIndex, TriedPlaced, NewPlaced, Counted, NewIds, TriedIds;
  }

  lemma Lookup(s: State, a: NetAddr)
    requires Indexed(s) && a in s.mapAddr
    ensures s.mapAddr[a] in s.mapInfo && s.mapInfo[s.mapAddr[a]].peer.svc.ip == a
  {
    assert HasAddr(s.mapInfo, s.mapAddr[a], a);
  }

  lemma GoodKeeps(k: Hashing, s: State, svc: Service, nTime: int)
    requires Inv(k, s, {}, 0)
    ensures Inv(k, Good(k, s, svc, nTime), {}, 0)
  {
    hide Indexed, TriedPlaced, NewPlaced, Counted, Tallied, MakeTried;
    GoodTimeKeeps(k, s, nTime);
    if svc.ip in s.mapAddr {
      Lookup(s, svc.ip);
      var id := s.mapAddr[svc.ip];
      if s.mapInfo[id].peer.svc == svc {
        var p := s.mapInfo[id].peer.(nLastSuccess := nTime, nLastTry := nTime, nAttempts := 0);
        var s0 := s.(nLastGood := nTime);
        TouchKeeps(k, s0, id, p, {}, 0);
        if !s.mapInfo[id].fInTried { MakeTriedKeeps(k, Touch(s0, id, p), id); }
      }
    }
  }

  /** A time in seconds as the 32-bit field of an address holds it. */
  function Stamp(t: int): nat {
    if t < 0 then 0 else t % 0x1_0000_0000
  }

  /** What an announcement of a known peer changes about it (src/addrman.cpp:259-266). */
  function Refreshed(p: Peer, addr: Address, penalty: int, now: int): Peer {
    var interval := if now - addr.nTime < 24 * 60 * 60 then 60 * 60 else 24 * 60 * 60;
    var p1 := if addr.nTime != 0 && (p.nTime == 0 || p.nTime < addr.nTime - interval - penalty)
              then p.(nTime := Stamp(addr.nTime - penalty)) else p;
    p1.(nServices := p1.nServices | addr.nServices)
  }

  /** The announcement says nothing newer than what is known. */
  predicate NoNews(p: Peer, addr: Address) {
    addr.nTime == 0 || (p.nTime != 0 && addr.nTime <= p.nTime)
  }

  /** Offer entry id, announced by source, a place in the new table (src/addrman.cpp:293-313). */
  ghost function Place(k: Hashing, s: State, id: nat, source: NetAddr, now: int): State
    requires Indexed(s) && NewPlaced(k, s.mapInfo, s.vvNew) && id in s.mapInfo
  {
    var t := k.NewSlot(s.mapInfo[id].peer.svc, source);
    if t !in s.vvNew then PutSlot(s, t, id) else
    var other := s.vvNew[t];
    assert OwnsNew(k, s.mapInfo, other, t);
    if other == id then s
    else if s.mapInfo[other].peer.IsTerrible(now) || (s.mapInfo[other].nRefCount > 1 && s.mapInfo[id].nRefCount == 0)
    then PutSlot(ClearNew(s, t), t, id)
    else if s.mapInfo[id].nRefCount == 0 then Delete(s, id)
    else s
  }

  /** An occupied new slot of an entry that is in limbo does not exist. */
  lemma LimboUnplaced(k: Hashing, s: State, t: Slot, limbo: set<nat>)
    requires NewPlaced(k, s.mapInfo, s.vvNew) && Counted(s.mapInfo, s.vvNew, limbo) && t in s.vvNew
    ensures OwnsNew(k, s.mapInfo, s.vvNew[t], t) && s.vvNew[t] !in limbo
  {
    assert OwnsNew(k, s.mapInfo, s.vvNew[t], t);
    assert t in SlotsOf(s.vvNew, s.vvNew[t]);
  }

  lemma EntryBounds(s: State, id: nat)
    requires Counted(s.mapInfo, s.vvNew, {}) && id in s.mapInfo && !s.mapInfo[id].fInTried
    ensures 1 <= s.mapInfo[id].nRefCount <= NEW_BUCKETS_PER_ADDRESS
  {
  }

  lemma PlaceKeeps(k: Hashing, s: State, id: nat, source: NetAddr, now: int, limbo: set<nat>, owed: int)
    requires Inv(k, s, limbo, owed) && id in s.mapInfo
    requires !s.mapInfo[id].fInTried && s.mapInfo[id].nRefCount < NEW_BUCKETS_PER_ADDRESS
    requires (limbo == {} && owed == 0) || (limbo == {id} && owed == 1)
    ensures Inv(k, Place(k, s, id, source, now), {}, 0)
  {
    hide Indexed, TriedPlaced, NewPlaced, Counted, Tallied, SlotsOf, ClearNew, Delete, PutSlot;
    LimboIn(s, limbo);
    if limbo == {} { EntryBounds(s, id); }
    var t := k.NewSlot(s.mapInfo[id].peer.svc, source);
    assert limbo - {id} == {};
    if t !in s.vvNew {
      PutSlotKeeps(k, s, t, id, limbo, owed);
    } else {
      LimboUnplaced(k, s, t, limbo);
      var other := s.vvNew[t];
      if other != id {
        if s.mapInfo[other].peer.IsTerrible(now) || (s.mapInfo[other].nRefCount > 1 && s.mapInfo[id].nRefCount == 0) {
          ClearNewKeeps(k, s, t, limbo, owed);
          ClearNewOthers(s, t);
          PutSlotKeeps(k, ClearNew(s, t), t, id, limbo, owed);
        } else if s.mapInfo[id].nRefCount == 0 {
          DeleteKeeps(k, s, id, limbo, owed);
        }
      }
    }
  }

  /** The announcement of a known peer stops here: nothing new, already tried, enough references, or bad luck. */
  ghost predicate Declined(info: Info, addr: Address, roll: nat) {
    || NoNews(info.peer, addr)
    || info.fInTried
    || info.nRefCount == NEW_BUCKETS_PER_ADDRESS
    || (info.nRefCount > 0 && roll != 0)
  }

  ghost function AddKnown(k: Hashing, s: State, id: nat, addr: Address, source: NetAddr, penalty: int, now: int,
                          roll: nat): State
    requires Inv(k, s, {}, 0) && id in s.mapInfo
  {
    RefreshKeeps(k, s, id, addr, penalty, now);
    var s1 := Touch(s, id, Refreshed(s.mapInfo[id].peer, addr, penalty, now));
    if Declined(s1.mapInfo[id], addr, roll) then s1 else Place(k, s1, id, source, now)
  }

  ghost function AddFresh(k: Hashing, s: State, addr: Address, source: NetAddr, penalty: int, now: int): State
    requires Inv(k, s, {}, 0) && addr.svc.ip !in s.mapAddr
  {
    FreshKeeps(k, s, addr.(nTime := Stamp(addr.nTime - penalty)), source);
    var s1 := Create(s, addr.(nTime := Stamp(addr.nTime - penalty)), source);
    Place(k, s1.(nNew := s1.nNew + 1), s.nIdCount, source, now)
  }

  /** Add_ (src/addrman.cpp:249-315) for a routable address; roll is the random draw. */
  ghost function Add(k: Hashing, s: State, addr: Address, source: NetAddr, penalty: int, now: int, roll: nat): State
    requires Inv(k, s, {}, 0)
  {
    if addr.svc.ip in s.mapAddr then
      Lookup(s, addr.svc.ip);
      AddKnown(k, s, s.mapAddr[addr.svc.ip], addr, source, penalty, now, roll)
    else
      AddFresh(k, s, addr, source, penalty, now)
  }

  lemma FreshKeeps(k: Hashing, s: State, addr: Address, source: NetAddr)
    requires Inv(k, s, {}, 0) && addr.svc.ip !in s.mapAddr
    ensures var s1 := Create(s, addr, source); Inv(k, s1.(nNew := s1.nNew + 1), {s.nIdCount}, 1)
  {
    hide Indexed, TriedPlaced, NewPlaced, Counted, Tallied;
    CreateKeeps(k, s, addr, source);
    TallyUp(k, Create(s, addr, source), {s.nIdCount}, 0, 1);
  }

  lemma RefreshKeeps(k: Hashing, s: State, id: nat, addr: Address, penalty: int, now: int)
    requires Inv(k, s, {}, 0) && id in s.mapInfo
    ensures Inv(k, Touch(s, id, Refreshed(s.mapInfo[id].peer, addr, penalty, now)), {}, 0)
  {
    hide Indexed, TriedPlaced, NewPlaced, Counted, Tallied;
    TouchKeeps(k, s, id, Refreshed(s.mapInfo[id].peer, addr, penalty, now), {}, 0);
  }

  lemma AddKnownKeeps(k: Hashing, s: State, id: nat, addr: Address, source: NetAddr, penalty: int, now: int, roll: nat)
    requires Inv(k, s, {}, 0) && id in s.mapInfo
    ensures Inv(k, AddKnown(k, s, id, addr, source, penalty, now, roll), {}, 0)
  {
    hide Indexed, TriedPlaced, NewPlaced, Counted, Tallied, Place;
    RefreshKeeps(k, s, id, addr, penalty, now);
    var s1 := Touch(s, id, Refreshed(s.mapInfo[id].peer, addr, penalty, now));
    if !Declined(s1.mapInfo[id], addr, roll) {
      EntryBounds(s1, id);
      PlaceKeeps(k, s1, id, source, now, {}, 0);
    }
  }

  lemma AddFreshKeeps(k: Hashing, s: State, addr: Address, source: NetAddr, penalty: int, now: int)
    requires Inv(k, s, {}, 0) && addr.svc.ip !in s.mapAddr
    ensures Inv(k, AddFresh(k, s, addr, source, penalty, now), {}, 0)
  {
    hide Indexed, TriedPlaced, NewPlaced, Counted, Tallied, Place;
    var a := addr.(nTime := Stamp(addr.nTime - penalty));
    FreshKeeps(k, s, a, source);
    var s1 := Create(s, a, source);
    PlaceKeeps(k, s1.(nNew := s1.nNew + 1), s.nIdCount, source, now, {s.nIdCount}, 1);
  }

  lemma AddKeeps(k: Hashing, s: State, addr: Address, source: NetAddr, penalty: int, now: int, roll: nat)
    requires Inv(k, s, {}, 0)
    ensures Inv(k, Add(k, s, addr, source, penalty, now, roll), {}, 0)
  {
    hide Indexed, TriedPlaced, NewPlaced, Counted, Tallied, AddKnown, AddFresh;
    if addr.svc.ip in s.mapAddr {
      Lookup(s, addr.svc.ip);
      AddKnownKeeps(k, s, s.mapAddr[addr.svc.ip], addr, source, penalty, now, roll);
    } else {
      AddFreshKeeps(k, s, addr, source, penalty, now);
    }
  }
}
