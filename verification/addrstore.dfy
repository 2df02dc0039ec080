/** Saving and loading the address manager (src/addrman.h:293-446).
  *
  * A `Snapshot` holds the values that Serialize writes, in order. Loading numbers the
  * entries anew: the new ones first, then the tried ones, each in the order of their old
  * ids. `Renamed` says what the loaded tables are, and its book is the saved book with
  * the memory-only fields reset.
  */
module AddrStore {
  import opened AddrTables
  import opened Numbers
  import AddrBook
  import A = AddrMan

  datatype Snapshot = Snapshot(
    nVersion: nat,
    nKeySize: nat,
    nKey: nat,
    nNew: int,
    nTried: int,
    nUBuckets: nat,
    newPeers: seq<Peer>,
    triedPeers: seq<Peer>,
    buckets: seq<seq<nat>>)

  /** A peer as it comes back from disk: the memory-only fields start over. */
  function Stored(p: Peer): Peer {
    p.(nLastTry := 0, nLastCountAttempt := 0)
  }

  /** Flip bit 30. */
  function Flip30(n: nat): nat {
    if n / 0x4000_0000 % 2 == 1 then n - 0x4000_0000 else n + 0x4000_0000
  }

  // ----- The order in which entries are written -----

  /** The ids below n that are written to the new section (or to the tried section), in order. */
  ghost function Section(info: map<nat, Info>, tried: bool, n: nat): seq<nat> {
    if n == 0 then [] else
    var rest := Section(info, tried, n - 1);
    if n - 1 in info && Listed(info[n - 1], tried) then rest + [n - 1] else rest
  }

  ghost predicate Member(info: map<nat, Info>, tried: bool, n: nat, id: nat) {
    id < n && id in info && Listed(info[id], tried)
  }

  predicate Listed(i: Info, tried: bool) {
    if tried then i.fInTried else i.nRefCount != 0
  }

  lemma {:induction false} SectionSorted(info: map<nat, Info>, tried: bool, n: nat)
    ensures forall i :: 0 <= i < |Section(info, tried, n)| ==> Member(info, tried, n, Section(info, tried, n)[i])
    ensures forall i, j :: 0 <= i < j < |Section(info, tried, n)| ==>
              Section(info, tried, n)[i] < Section(info, tried, n)[j]
  {
    if n > 0 {
      SectionSorted(info, tried, n - 1);
      var rest := Section(info, tried, n - 1);
      assert forall i :: 0 <= i < |rest| ==> Member(info, tried, n - 1, rest[i]);
    }
  }

  lemma SectionStep(info: map<nat, Info>, tried: bool, n: nat)
    ensures Section(info, tried, n + 1) ==
            if n in info && Listed(info[n], tried) then Section(info, tried, n) + [n] else Section(info, tried, n)
  {
  }

  lemma {:induction false} SectionHolds(info: map<nat, Info>, tried: bool, n: nat, id: nat)
    requires Member(info, tried, n, id)
    ensures |Section(info, tried, id)| < |Section(info, tried, n)|
    ensures Section(info, tried, n)[|Section(info, tried, id)|] == id
  {
    if id < n - 1 { SectionHolds(info, tried, n - 1, id); }
  }

  /** The new ids in the order of the new numbering: entry j of the list becomes id j. */
  ghost function Order(s: State): seq<nat> {
    Section(s.mapInfo, false, s.nIdCount) + Section(s.mapInfo, true, s.nIdCount)
  }

  ghost function Rank(order: seq<nat>, id: nat): (j: nat)
    requires id in order
    ensures j < |order| && order[j] == id
  {
    var j: nat :| j < |order| && order[j] == id; j
  }

  /** What the proofs below need of the order: it lists every entry once, new ones first. */
  ghost predicate Enumerates(s: State, order: seq<nat>) {
    && (forall i, j :: 0 <= i < j < |order| ==> order[i] != order[j])
    && (forall i :: 0 <= i < |order| ==> AddrBook.Known(s.mapInfo, order[i]))
    && (forall id :: id in s.mapInfo ==> id in order)
  }

  lemma OrderEnumerates(k: Hashing, s: State)
    requires Inv(k, s, {}, 0)
    ensures Enumerates(s, Order(s))
    ensures |Section(s.mapInfo, false, s.nIdCount)| == s.nNew
    ensures |Section(s.mapInfo, true, s.nIdCount)| == s.nTried
  {
    hide AddrIndex, RandomIndex, TriedPlaced, SlotsOf;
    var xs := Section(s.mapInfo, false, s.nIdCount);
    var ys := Section(s.mapInfo, true, s.nIdCount);
    SectionSorted(s.mapInfo, false, s.nIdCount);
    SectionSorted(s.mapInfo, true, s.nIdCount);
    forall id | id in s.mapInfo
      ensures s.mapInfo[id].nRefCount != 0 <==> !s.mapInfo[id].fInTried
    {
      if s.mapInfo[id].fInTried {
        UntriedNoRef(k, s, id);
      }
    }
    forall id | id in s.mapInfo ensures id in Order(s) {
      if s.mapInfo[id].fInTried { SectionHolds(s.mapInfo, true, s.nIdCount, id); }
      else { SectionHolds(s.mapInfo, false, s.nIdCount, id); }
    }
    forall i | 0 <= i < |xs| ensures !s.mapInfo[xs[i]].fInTried { assert Member(s.mapInfo, false, s.nIdCount, xs[i]); }
    forall i | 0 <= i < |ys| ensures s.mapInfo[ys[i]].fInTried { assert Member(s.mapInfo, true, s.nIdCount, ys[i]); }
    forall i | 0 <= i < |Order(s)| ensures AddrBook.Known(s.mapInfo, Order(s)[i]) {
      if i < |xs| { assert Member(s.mapInfo, false, s.nIdCount, xs[i]); }
      else { assert Member(s.mapInfo, true, s.nIdCount, ys[i - |xs|]); }
    }
    ListSize(xs, NewIds(s.mapInfo));
    ListSize(ys, TriedIds(s.mapInfo));
    assert NewIds(s.mapInfo) - {} == NewIds(s.mapInfo);
  }

  lemma UntriedNoRef(k: Hashing, s: State, id: nat)
    requires Inv(k, s, {}, 0) && id in s.mapInfo && s.mapInfo[id].fInTried
    ensures s.mapInfo[id].nRefCount == 0
  {
    hide AddrIndex, RandomIndex, TriedPlaced, NewPlaced, Tallied, Counted;
    NoSlots(k, s.mapInfo, s.vvNew, id);
    AddrBook.SlotCount(s.mapInfo, s.vvNew, {}, id);
  }

  // ----- The loaded tables -----

  ghost function RenamedInfo(s: State, order: seq<nat>): (r: map<nat, Info>)
    requires Enumerates(s, order)
    ensures forall j: nat :: j in r <==> j < |order|
    ensures forall j :: 0 <= j < |order| ==>
              r[j] == InfoAt(s.mapInfo, order[j]).(peer := Stored(InfoAt(s.mapInfo, order[j]).peer), nRandomPos := j)
  {
    map j: nat | j < |order| ::
      InfoAt(s.mapInfo, order[j]).(peer := Stored(InfoAt(s.mapInfo, order[j]).peer), nRandomPos := j)
  }

  ghost function InfoAt(info: map<nat, Info>, id: nat): Info
    requires AddrBook.Known(info, id)
  {
    info[id]
  }

  ghost predicate Ranked(order: seq<nat>, table: map<Slot, nat>) {
    forall t :: t in table ==> table[t] in order
  }

  ghost function RenamedTable(order: seq<nat>, table: map<Slot, nat>): map<Slot, nat>
    requires Ranked(order, table)
  {
    map t | t in table :: Rank(order, table[t])
  }

  ghost predicate AddrRanked(order: seq<nat>, addr: map<NetAddr, nat>) {
    forall a :: a in addr ==> addr[a] in order
  }

  ghost function RenamedAddr(order: seq<nat>, addr: map<NetAddr, nat>): (r: map<NetAddr, nat>)
    requires AddrRanked(order, addr)
    ensures r.Keys == addr.Keys
  {
    map a | a in addr :: Rank(order, addr[a])
  }

  ghost predicate Loadable(s: State, order: seq<nat>) {
    && Enumerates(s, order)
    && Ranked(order, s.vvNew)
    && Ranked(order, s.vvTried)
    && AddrRanked(order, s.mapAddr)
  }

  ghost function Renamed(s: State, order: seq<nat>): State
    requires Loadable(s, order)
  {
    State(|order|, RenamedInfo(s, order), RenamedAddr(order, s.mapAddr), seq(|order|, i => i),
          RenamedTable(order, s.vvNew), RenamedTable(order, s.vvTried), s.nNew, s.nTried, 1)
  }

  lemma RankUnique(order: seq<nat>, j: nat)
    requires forall i, j :: 0 <= i < j < |order| ==> order[i] != order[j]
    requires j < |order|
    ensures Rank(order, order[j]) == j
  {
  }

  lemma InvLoadable(k: Hashing, s: State, order: seq<nat>)
    requires Inv(k, s, {}, 0) && Enumerates(s, order)
    ensures Loadable(s, order)
  {
    hide RandomIndex, Counted, Tallied;
    forall t | t in s.vvNew ensures s.vvNew[t] in order { assert OwnsNew(k, s.mapInfo, s.vvNew[t], t); }
    forall t | t in s.vvTried ensures s.vvTried[t] in order { assert OwnsTried(k, s.mapInfo, s.vvTried[t], t); }
    forall a | a in s.mapAddr ensures s.mapAddr[a] in order { assert HasAddr(s.mapInfo, s.mapAddr[a], a); }
  }

  lemma RenamedIndexed(s: State, order: seq<nat>)
    requires Loadable(s, order) && AddrIndex(s.mapInfo, s.mapAddr)
    ensures Indexed(Renamed(s, order))
  {
    var r := Renamed(s, order);
    forall j | j in r.mapInfo
      ensures r.mapInfo[j].peer.svc.ip in r.mapAddr && r.mapAddr[r.mapInfo[j].peer.svc.ip] == j
    {
      assert AddrBook.Known(s.mapInfo, order[j]);
      RankUnique(order, j);
    }
    forall a | a in r.mapAddr ensures HasAddr(r.mapInfo, r.mapAddr[a], a) {
      assert HasAddr(s.mapInfo, s.mapAddr[a], a);
      var j := Rank(order, s.mapAddr[a]);
      assert r.mapAddr[a] == j;
      assert AddrBook.Known(s.mapInfo, order[j]);
    }
    forall i | 0 <= i < |r.vRandom| ensures HasPos(r.mapInfo, r.vRandom[i], i) {
      assert AddrBook.Known(s.mapInfo, order[i]);
    }
    forall j | j in r.mapInfo
      ensures r.mapInfo[j].nRandomPos < |r.vRandom| && r.vRandom[r.mapInfo[j].nRandomPos] == j
    {
      assert AddrBook.Known(s.mapInfo, order[j]);
    }
  }

  lemma RenamedSlots(order: seq<nat>, table: map<Slot, nat>, j: nat)
    requires forall i, j :: 0 <= i < j < |order| ==> order[i] != order[j]
    requires Ranked(order, table) && j < |order|
    ensures SlotsOf(RenamedTable(order, table), j) == SlotsOf(table, order[j])
  {
    RankUnique(order, j);
    var r := RenamedTable(order, table);
    forall t | t in table ensures r[t] == j <==> table[t] == order[j] {
      assert r[t] == Rank(order, table[t]);
    }
  }

  lemma RenamedPlaced(k: Hashing, s: State, order: seq<nat>)
    requires Loadable(s, order)
    requires NewPlaced(k, s.mapInfo, s.vvNew) && TriedPlaced(k, s.mapInfo, s.vvTried)
    ensures var r := Renamed(s, order); NewPlaced(k, r.mapInfo, r.vvNew) && TriedPlaced(k, r.mapInfo, r.vvTried)
  {
    var r := Renamed(s, order);
    forall t | t in r.vvNew ensures OwnsNew(k, r.mapInfo, r.vvNew[t], t) {
      assert OwnsNew(k, s.mapInfo, s.vvNew[t], t);
      var j := Rank(order, s.vvNew[t]);
      assert AddrBook.Known(s.mapInfo, order[j]);
    }
    forall t | t in r.vvTried ensures OwnsTried(k, r.mapInfo, r.vvTried[t], t) {
      assert OwnsTried(k, s.mapInfo, s.vvTried[t], t);
      var j := Rank(order, s.vvTried[t]);
      assert AddrBook.Known(s.mapInfo, order[j]);
    }
    forall j | j in r.mapInfo && r.mapInfo[j].fInTried
      ensures k.TriedSlot(r.mapInfo[j].peer.svc) in r.vvTried && r.vvTried[k.TriedSlot(r.mapInfo[j].peer.svc)] == j
    {
      assert AddrBook.Known(s.mapInfo, order[j]);
      RankUnique(order, j);
    }
  }

  lemma RenamedCounted(s: State, order: seq<nat>)
    requires Loadable(s, order) && Counted(s.mapInfo, s.vvNew, {})
    ensures var r := Renamed(s, order); Counted(r.mapInfo, r.vvNew, {})
  {
    var r := Renamed(s, order);
    forall j | j in r.mapInfo ensures r.mapInfo[j].nRefCount == |SlotsOf(r.vvNew, j)| {
      assert AddrBook.Known(s.mapInfo, order[j]);
      RenamedSlots(order, s.vvNew, j);
      AddrBook.SlotCount(s.mapInfo, s.vvNew, {}, order[j]);
    }
    forall j | j in r.mapInfo
      ensures !r.mapInfo[j].fInTried ==> 1 <= r.mapInfo[j].nRefCount <= NEW_BUCKETS_PER_ADDRESS
    {
      assert AddrBook.Known(s.mapInfo, order[j]);
    }
  }

  /** Times that are in order come back in order. */
  lemma RenamedTimed(s: State, order: seq<nat>)
    requires Loadable(s, order) && Timed(s.mapInfo)
    ensures Timed(Renamed(s, order).mapInfo)
  {
    var r := Renamed(s, order);
    forall j | j in r.mapInfo ensures PeerTimed(r.mapInfo[j].peer, r.mapInfo[j].fInTried) {
      assert AddrBook.Known(s.mapInfo, order[j]);
    }
  }

  /** Renaming keeps the number of entries with a property. */
  lemma {:induction false} RenamedSize(order: seq<nat>, ids: set<nat>, js: set<nat>)
    requires forall i, j :: 0 <= i < j < |order| ==> order[i] != order[j]
    requires forall id :: id in ids ==> id in order
    requires forall j: nat :: j in js <==> j < |order| && order[j] in ids
    ensures |js| == |ids|
    decreases |ids|
  {
    if ids == {} {
      assert js == {};
    } else {
      var id :| id in ids;
      var j := Rank(order, id);
      RenamedSize(order, ids - {id}, js - {j});
    }
  }

  lemma RenamedTallied(s: State, order: seq<nat>)
    requires Loadable(s, order) && Tallied(s, {}, 0)
    ensures Tallied(Renamed(s, order), {}, 0)
  {
    var r := Renamed(s, order);
    forall j: nat ensures j in NewIds(r.mapInfo) <==> j < |order| && order[j] in NewIds(s.mapInfo) {
      if j < |order| { assert AddrBook.Known(s.mapInfo, order[j]); }
    }
    forall j: nat ensures j in TriedIds(r.mapInfo) <==> j < |order| && order[j] in TriedIds(s.mapInfo) {
      if j < |order| { assert AddrBook.Known(s.mapInfo, order[j]); }
    }
    RenamedSize(order, NewIds(s.mapInfo), NewIds(r.mapInfo));
    RenamedSize(order, TriedIds(s.mapInfo), TriedIds(r.mapInfo));
    assert NewIds(s.mapInfo) - {} == NewIds(s.mapInfo);
    assert NewIds(r.mapInfo) - {} == NewIds(r.mapInfo);
  }

  /** The loaded tables are consistent. */
  lemma RenamedKeeps(k: Hashing, s: State, order: seq<nat>)
    requires Inv(k, s, {}, 0) && Enumerates(s, order)
    ensures Loadable(s, order) && Inv(k, Renamed(s, order), {}, 0)
  {
    hide AddrIndex, RandomIndex, TriedPlaced, NewPlaced, Counted, Tallied, Enumerates, Renamed, SlotsOf;
    InvLoadable(k, s, order);
    RenamedIndexed(s, order);
    RenamedPlaced(k, s, order);
    RenamedCounted(s, order);
    RenamedTallied(s, order);
  }

  /** The book as it comes back from disk. */
  ghost function StoredBook(b: AddrBook.Book): AddrBook.Book {
    b.(peers := map a | a in b.peers :: Stored(b.peers[a]))
  }

  /** Loading loses nothing: same addresses, same new/tried split, same slots. */
  lemma RenamedView(k: Hashing, s: State, order: seq<nat>)
    requires Inv(k, s, {}, 0) && Enumerates(s, order)
    ensures Loadable(s, order)
    ensures AddrBook.Viewable(s) && AddrBook.Viewable(Renamed(s, order))
    ensures AddrBook.View(Renamed(s, order)) == StoredBook(AddrBook.View(s))
  {
    hide AddrIndex, RandomIndex, TriedPlaced, NewPlaced, Counted, Tallied, SlotsOf, Enumerates,
         AddrBook.Peers, AddrBook.Names, AddrBook.AllKnown, RenamedInfo, RenamedAddr, RenamedTable;
    RenamedKeeps(k, s, order);
    AddrBook.InvViewable(k, s, {}, 0);
    AddrBook.InvViewable(k, Renamed(s, order), {}, 0);
    RenamedPeers(s, order);
    RenamedNames(s, order, s.vvNew);
    RenamedNames(s, order, s.vvTried);
  }

  lemma RenamedPeers(s: State, order: seq<nat>)
    requires Loadable(s, order) && AddrIndex(s.mapInfo, s.mapAddr)
    requires AddrIndex(RenamedInfo(s, order), RenamedAddr(order, s.mapAddr))
    ensures var peers := AddrBook.Peers(s.mapInfo, s.mapAddr);
            (AddrBook.Peers(RenamedInfo(s, order), RenamedAddr(order, s.mapAddr)) ==
               map a | a in peers :: Stored(peers[a]))
  {
    hide AddrIndex, Enumerates, AddrRanked, Ranked, RenamedInfo, RenamedAddr, AddrBook.Peers;
    forall a | a in s.mapAddr
      ensures AddrBook.Peers(RenamedInfo(s, order), RenamedAddr(order, s.mapAddr))[a] ==
                Stored(AddrBook.Peers(s.mapInfo, s.mapAddr)[a])
    {
      RenamedPeerAt(s, order, a);
    }
  }

  lemma RenamedPeerAt(s: State, order: seq<nat>, a: NetAddr)
    requires Enumerates(s, order) && AddrRanked(order, s.mapAddr) && AddrIndex(s.mapInfo, s.mapAddr)
    requires AddrIndex(RenamedInfo(s, order), RenamedAddr(order, s.mapAddr)) && a in s.mapAddr
    ensures AddrBook.Peers(RenamedInfo(s, order), RenamedAddr(order, s.mapAddr))[a] ==
              Stored(AddrBook.Peers(s.mapInfo, s.mapAddr)[a])
  {
    hide AddrIndex, Enumerates, RenamedInfo, AddrBook.Peers;
    PeerAtAddr(s.mapInfo, s.mapAddr, a);
    PeerAtAddr(RenamedInfo(s, order), RenamedAddr(order, s.mapAddr), a);
    RenamedAt(s, order, s.mapAddr[a]);
  }

  lemma PeerAtAddr(info: map<nat, Info>, addr: map<NetAddr, nat>, a: NetAddr)
    requires AddrIndex(info, addr) && a in addr
    ensures addr[a] in info && AddrBook.Peers(info, addr)[a] == info[addr[a]].peer
  {
    assert HasAddr(info, addr[a], a);
  }

  lemma RenamedAt(s: State, order: seq<nat>, id: nat)
    requires Enumerates(s, order) && id in s.mapInfo && id in order
    ensures var j := Rank(order, id);
            j in RenamedInfo(s, order) && RenamedInfo(s, order)[j].peer == Stored(s.mapInfo[id].peer)
  {
    assert AddrBook.Known(s.mapInfo, order[Rank(order, id)]);
  }

  lemma RenamedNames(s: State, order: seq<nat>, table: map<Slot, nat>)
    requires Enumerates(s, order) && Ranked(order, table) && AddrBook.AllKnown(s.mapInfo, table)
    requires AddrBook.AllKnown(RenamedInfo(s, order), RenamedTable(order, table))
    ensures AddrBook.Names(RenamedInfo(s, order), RenamedTable(order, table)) == AddrBook.Names(s.mapInfo, table)
  {
    hide Enumerates, RenamedInfo;
    var info, r := RenamedInfo(s, order), RenamedTable(order, table);
    forall t | t in table ensures AddrBook.Names(info, r)[t] == AddrBook.Names(s.mapInfo, table)[t] {
      assert AddrBook.Known(s.mapInfo, table[t]);
      RenamedAt(s, order, table[t]);
    }
  }

  // ----- What Serialize writes -----

  ghost function PeersOf(info: map<nat, Info>, ids: seq<nat>): (r: seq<Peer>)
    requires A.AllIn(info, ids)
    ensures |r| == |ids|
    ensures forall i :: 0 <= i < |ids| ==> r[i] == Stored(InfoAt(info, ids[i]).peer)
  {
    seq(|ids|, i requires 0 <= i < |ids| => Stored(InfoAt(info, ids[i]).peer))
  }

  /** The indices written for the first p positions of a bucket. */
  ghost function BucketList(s: State, b: nat, p: nat): seq<nat> {
    if p == 0 then [] else
    var rest := BucketList(s, b, p - 1);
    if (b, p - 1) in s.vvNew then rest + [|Section(s.mapInfo, false, s.vvNew[(b, p - 1)])|] else rest
  }

  lemma SectionIn(info: map<nat, Info>, tried: bool, n: nat)
    ensures A.AllIn(info, Section(info, tried, n))
  {
    SectionSorted(info, tried, n);
    var r := Section(info, tried, n);
    forall i | 0 <= i < |r| ensures AddrBook.Known(info, r[i]) { assert Member(info, tried, n, r[i]); }
  }

  ghost function Snap(k: Hashing, s: State): Snapshot {
    SectionIn(s.mapInfo, false, s.nIdCount);
    SectionIn(s.mapInfo, true, s.nIdCount);
    Snapshot(1, 32, k.nKey, s.nNew, s.nTried, Flip30(NEW_BUCKET_COUNT),
             PeersOf(s.mapInfo, Section(s.mapInfo, false, s.nIdCount)),
             PeersOf(s.mapInfo, Section(s.mapInfo, true, s.nIdCount)),
             seq(NEW_BUCKET_COUNT, b requires 0 <= b => BucketList(s, b, BUCKET_SIZE)))
  }

  lemma PeersOfAppend(info: map<nat, Info>, ids: seq<nat>, id: nat)
    requires A.AllIn(info, ids) && id in info
    ensures A.AllIn(info, ids + [id])
    ensures PeersOf(info, ids + [id]) == PeersOf(info, ids) + [Stored(info[id].peer)]
  {
    var ids' := ids + [id];
    forall i | 0 <= i < |ids'| ensures AddrBook.Known(info, ids'[i]) {
      if i < |ids| { assert AddrBook.Known(info, ids[i]); }
    }
  }

  lemma EmptySection(info: map<nat, Info>, tried: bool)
    ensures Section(info, tried, 0) == [] && A.AllIn(info, []) && PeersOf(info, []) == []
  {
  }

  /** Write one section; also the running number of every entry. */
  method WriteSection(m: A.AddrMan, tried: bool) returns (peers: seq<Peer>, numbers: map<nat, nat>)
    requires m.Valid()
    ensures A.AllIn(m.mapInfo, Section(m.mapInfo, tried, m.nIdCount))
    ensures peers == PeersOf(m.mapInfo, Section(m.mapInfo, tried, m.nIdCount))
    ensures forall id :: id in m.mapInfo ==> id in numbers && numbers[id] == |Section(m.mapInfo, tried, id)|
  {
    hide AddrIndex, RandomIndex, TriedPlaced, NewPlaced, Counted, Tallied, PeersOf, A.Slots, A.Sane, A.AllIn,
         Listed, Section, Enumerates, Order;
    OrderEnumerates(m.nKey, m.Tables());
    peers, numbers := [], map[];
    var nIds := 0;
    var id := 0;
    EmptySection(m.mapInfo, tried);
    while id < m.nIdCount
      invariant id <= m.nIdCount
      invariant nIds == |Section(m.mapInfo, tried, id)|
      invariant A.AllIn(m.mapInfo, Section(m.mapInfo, tried, id))
      invariant peers == PeersOf(m.mapInfo, Section(m.mapInfo, tried, id))
      invariant forall x :: x in m.mapInfo && x < id ==> x in numbers && numbers[x] == |Section(m.mapInfo, tried, x)|
    {
      SectionStep(m.mapInfo, tried, id);
      if id in m.mapInfo {
        numbers := numbers[id := nIds];
        if Listed(m.mapInfo[id], tried) {
          SectionHolds(m.mapInfo, tried, m.nIdCount, id);
          assert nIds != if tried then m.nTried else m.nNew;
          PeersOfAppend(m.mapInfo, Section(m.mapInfo, tried, id), id);
          peers := peers + [Stored(m.mapInfo[id].peer)];
          nIds := nIds + 1;
        }
      }
      id := id + 1;
    }
  }

  method Serialize(m: A.AddrMan) returns (snap: Snapshot)
    requires m.Valid()
    ensures snap == Snap(m.nKey, m.Tables())
  {
    hide AddrIndex, RandomIndex, TriedPlaced, Counted, Tallied, PeersOf, A.Slots, A.Sane, A.AllIn, Section;
    var newPeers, mapUnkIds := WriteSection(m, false);
    var triedPeers, _ := WriteSection(m, true);
    ghost var s := m.Tables();
    var buckets: seq<seq<nat>> := [];
    var bucket := 0;
    while bucket < NEW_BUCKET_COUNT
      invariant bucket == |buckets| <= NEW_BUCKET_COUNT
      invariant forall b :: 0 <= b < bucket ==> buckets[b] == BucketList(s, b, BUCKET_SIZE)
    {
      var row := [];
      var i := 0;
      while i < BUCKET_SIZE
        invariant i <= BUCKET_SIZE && row == BucketList(s, bucket, i)
      {
        if m.vvNew[bucket, i] != -1 {
          assert OwnsNew(m.nKey, s.mapInfo, s.vvNew[(bucket, i)], (bucket, i));
          row := row + [mapUnkIds[m.vvNew[bucket, i]]];
        }
        i := i + 1;
      }
      buckets := buckets + [row];
      bucket := bucket + 1;
    }
    snap := Snapshot(1, 32, m.nKey.nKey, m.nNew, m.nTried, Flip30(NEW_BUCKET_COUNT), newPeers, triedPeers, buckets);
    assert buckets == Snap(m.nKey, s).buckets;
  }

  // ----- Loading, one entry and one slot at a time -----

  /** The first m loaded entries, when the slots of `done` have been handed out. */
  ghost function PartInfo(full: map<nat, Info>, m: nat, done: map<Slot, nat>): map<nat, Info>
    requires forall j: nat :: j < m ==> j in full
  {
    map j: nat | j < m :: full[j].(nRefCount := |SlotsOf(done, j)|)
  }

  ghost function PartMap<X>(full: map<X, nat>, m: nat): map<X, nat> {
    map x | x in full && full[x] < m :: full[x]
  }

  /** The ids are exactly those below nIdCount. */
  ghost predicate Full(r: State) {
    forall j: nat :: j in r.mapInfo <==> j < r.nIdCount
  }

  ghost function Part(r: State, m: nat, done: map<Slot, nat>): State
    requires Full(r) && m <= r.nIdCount
  {
    State(m, PartInfo(r.mapInfo, m, done), PartMap(r.mapAddr, m), seq(m, i => i), done, PartMap(r.vvTried, m),
          r.nNew, r.nTried, 1)
  }

  /** The loaded state, and what loading relies on about it. */
  ghost predicate Target(k: Hashing, r: State) {
    && Inv(k, r, {}, 0)
    && Full(r)
    && (forall j: nat :: j in r.mapInfo ==> r.mapInfo[j].nRandomPos == j)
    && r.vRandom == seq(r.nIdCount, i => i)
    && r.nLastGood == 1
  }

  lemma PartMapStep<X(!new)>(full: map<X, nat>, m: nat, x: X)
    requires x in full && full[x] == m
    requires forall y :: y in full && full[y] == m ==> y == x
    ensures PartMap(full, m + 1) == PartMap(full, m)[x := m]
    ensures x !in PartMap(full, m)
  {
  }

  lemma PartMapIdle<X(!new)>(full: map<X, nat>, m: nat)
    requires forall y :: y in full ==> full[y] != m
    ensures PartMap(full, m + 1) == PartMap(full, m)
  {
  }

  lemma PartInfoStep(full: map<nat, Info>, m: nat)
    requires forall j: nat :: j < m + 1 ==> j in full
    ensures PartInfo(full, m + 1, map[]) == PartInfo(full, m, map[])[m := full[m].(nRefCount := 0)]
  {
    assert SlotsOf(map[], m) == {};
  }

  lemma PartAddrStep(info: map<nat, Info>, addr: map<NetAddr, nat>, m: nat)
    requires AddrIndex(info, addr) && m in info
    ensures PartMap(addr, m + 1) == PartMap(addr, m)[info[m].peer.svc.ip := m]
  {
    var a := info[m].peer.svc.ip;
    forall y | y in addr && addr[y] == m ensures y == a { assert HasAddr(info, addr[y], y); }
    PartMapStep(addr, m, a);
  }

  lemma PartTriedStep(k: Hashing, info: map<nat, Info>, table: map<Slot, nat>, m: nat)
    requires TriedPlaced(k, info, table) && m in info
    ensures if info[m].fInTried
            then k.TriedSlot(info[m].peer.svc) !in PartMap(table, m)
                 && PartMap(table, m + 1) == PartMap(table, m)[k.TriedSlot(info[m].peer.svc) := m]
            else PartMap(table, m + 1) == PartMap(table, m)
  {
    if info[m].fInTried {
      var t := k.TriedSlot(info[m].peer.svc);
      forall y | y in table && table[y] == m ensures y == t { assert OwnsTried(k, info, table[y], y); }
      PartMapStep(table, m, t);
    } else {
      forall y | y in table ensures table[y] != m { assert OwnsTried(k, info, table[y], y); }
      PartMapIdle(table, m);
    }
  }

  /** Loading entry m. */
  lemma PartStep(k: Hashing, r: State, m: nat)
    requires Target(k, r) && m < r.nIdCount
    ensures m in r.mapInfo
    ensures var p, q := Part(r, m, map[]), Part(r, m + 1, map[]);
            && q.mapInfo == p.mapInfo[m := r.mapInfo[m].(nRefCount := 0)]
            && q.mapAddr == p.mapAddr[r.mapInfo[m].peer.svc.ip := m]
            && q.vRandom == p.vRandom + [m]
            && (if r.mapInfo[m].fInTried
                then k.TriedSlot(r.mapInfo[m].peer.svc) !in p.vvTried
                     && q.vvTried == p.vvTried[k.TriedSlot(r.mapInfo[m].peer.svc) := m]
                else q.vvTried == p.vvTried)
  {
    hide AddrIndex, RandomIndex, TriedPlaced, NewPlaced, Counted, Tallied, PartInfo, PartMap, SlotsOf;
    assert m in r.mapInfo;
    PartInfoStep(r.mapInfo, m);
    PartAddrStep(r.mapInfo, r.mapAddr, m);
    PartTriedStep(k, r.mapInfo, r.vvTried, m);
  }

  lemma PartMapAll<X(!new)>(full: map<X, nat>, n: nat)
    requires forall x :: x in full ==> full[x] < n
    ensures PartMap(full, n) == full
  {
  }

  lemma PartInfoEnd(r: State)
    requires Counted(r.mapInfo, r.vvNew, {}) && Full(r)
    ensures PartInfo(r.mapInfo, r.nIdCount, r.vvNew) == r.mapInfo
  {
    var p := PartInfo(r.mapInfo, r.nIdCount, r.vvNew);
    forall j: nat | j < r.nIdCount ensures p[j] == r.mapInfo[j] {
      AddrBook.SlotCount(r.mapInfo, r.vvNew, {}, j);
    }
  }

  /** Everything loaded and every slot handed out is the target. */
  lemma PartEnd(k: Hashing, r: State)
    requires Target(k, r)
    ensures Part(r, r.nIdCount, r.vvNew) == r
  {
    hide RandomIndex, NewPlaced, Counted, Tallied, PartInfo, SlotsOf;
    PartInfoEnd(r);
    forall a | a in r.mapAddr ensures r.mapAddr[a] < r.nIdCount { assert HasAddr(r.mapInfo, r.mapAddr[a], a); }
    PartMapAll(r.mapAddr, r.nIdCount);
    forall t | t in r.vvTried ensures r.vvTried[t] < r.nIdCount { assert OwnsTried(k, r.mapInfo, r.vvTried[t], t); }
    PartMapAll(r.vvTried, r.nIdCount);
  }

  /** Slots of the target that lie before position q of bucket b. */
  ghost function Done(full: map<Slot, nat>, b: nat, q: nat): map<Slot, nat> {
    map t | t in full && (t.0 < b || (t.0 == b && t.1 < q)) :: full[t]
  }

  lemma PutStepInfo(full: map<nat, Info>, n: nat, done: map<Slot, nat>, t: Slot, j: nat)
    requires forall i: nat :: i < n ==> i in full
    requires t !in done && j < n
    ensures var p := PartInfo(full, n, done);
            PartInfo(full, n, done[t := j]) == p[j := p[j].(nRefCount := p[j].nRefCount + 1)]
  {
    var x, p := PartInfo(full, n, done[t := j]), PartInfo(full, n, done);
    forall i: nat | i < n ensures x[i] == if i == j then p[j].(nRefCount := p[j].nRefCount + 1) else p[i] {
      SlotsPut(done, t, j, i);
    }
  }

  lemma PutStepBound(r: State, b: nat, q: nat)
    requires Counted(r.mapInfo, r.vvNew, {}) && (b, q) in r.vvNew
    requires r.vvNew[(b, q)] in r.mapInfo && !r.mapInfo[r.vvNew[(b, q)]].fInTried
    ensures |SlotsOf(Done(r.vvNew, b, q), r.vvNew[(b, q)])| < NEW_BUCKETS_PER_ADDRESS
    ensures Done(r.vvNew, b, q + 1) == Done(r.vvNew, b, q)[(b, q) := r.vvNew[(b, q)]]
  {
    var j := r.vvNew[(b, q)];
    EntryBounds(r, j);
    AddrBook.SlotCount(r.mapInfo, r.vvNew, {}, j);
    assert SlotsOf(Done(r.vvNew, b, q), j) <= SlotsOf(r.vvNew, j) - {(b, q)};
    SubsetSize(SlotsOf(Done(r.vvNew, b, q), j), SlotsOf(r.vvNew, j) - {(b, q)});
  }

  /** Handing out one more slot: it is free, the count stays below the limit and goes up by one. */
  lemma PutStep(k: Hashing, r: State, b: nat, q: nat)
    requires Target(k, r) && (b, q) in r.vvNew
    ensures r.vvNew[(b, q)] < r.nIdCount && r.vvNew[(b, q)] in r.mapInfo && (b, q) !in Done(r.vvNew, b, q)
    ensures q == k.Position(r.mapInfo[r.vvNew[(b, q)]].peer.svc, true, b)
    ensures |SlotsOf(Done(r.vvNew, b, q), r.vvNew[(b, q)])| < NEW_BUCKETS_PER_ADDRESS
    ensures Part(r, r.nIdCount, Done(r.vvNew, b, q + 1)) ==
              PutSlot(Part(r, r.nIdCount, Done(r.vvNew, b, q)), (b, q), r.vvNew[(b, q)])
  {
    hide AddrIndex, RandomIndex, TriedPlaced, NewPlaced, Counted, Tallied, PartInfo, PartMap, SlotsOf;
    DropSlotPlaced(k, r.mapInfo, r.vvNew, (b, q));
    PutStepBound(r, b, q);
    PutStepInfo(r.mapInfo, r.nIdCount, Done(r.vvNew, b, q), (b, q), r.vvNew[(b, q)]);
  }

  lemma DoneIdle(full: map<Slot, nat>, b: nat, q: nat)
    requires (b, q) !in full
    ensures Done(full, b, q + 1) == Done(full, b, q)
  {
  }

  lemma DoneBucket(k: Hashing, r: State, b: nat)
    requires NewPlaced(k, r.mapInfo, r.vvNew)
    ensures Done(r.vvNew, b, BUCKET_SIZE) == Done(r.vvNew, b + 1, 0)
    ensures Done(r.vvNew, NEW_BUCKET_COUNT, 0) == r.vvNew
  {
    forall t | t in r.vvNew ensures t.0 < NEW_BUCKET_COUNT && t.1 < BUCKET_SIZE {
      assert OwnsNew(k, r.mapInfo, r.vvNew[t], t);
    }
    assert Done(r.vvNew, b, BUCKET_SIZE) == Done(r.vvNew, b + 1, 0);
    assert Done(r.vvNew, NEW_BUCKET_COUNT, 0) == r.vvNew;
  }

  // ----- The snapshot describes the loaded tables -----

  /** The ids in the first p positions of a bucket. */
  ghost function BucketRow(table: map<Slot, nat>, b: nat, p: nat): seq<nat> {
    if p == 0 then [] else
    var rest := BucketRow(table, b, p - 1);
    if (b, p - 1) in table then rest + [table[(b, p - 1)]] else rest
  }

  ghost predicate Describes(k: Hashing, snap: Snapshot, r: State) {
    && snap.nVersion == 1 && snap.nKeySize == 32 && snap.nKey == k.nKey
    && snap.nNew == r.nNew == |snap.newPeers| && snap.nTried == r.nTried == |snap.triedPeers|
    && r.nIdCount == |snap.newPeers| + |snap.triedPeers|
    && snap.nUBuckets == Flip30(NEW_BUCKET_COUNT)
    && (forall j: nat :: j < r.nIdCount ==>
          j in r.mapInfo && r.mapInfo[j].peer == Entry(snap, j) && r.mapInfo[j].fInTried == (j >= |snap.newPeers|))
    && |snap.buckets| == NEW_BUCKET_COUNT
    && (forall b :: 0 <= b < NEW_BUCKET_COUNT ==> snap.buckets[b] == BucketRow(r.vvNew, b, BUCKET_SIZE))
  }

  /** The j-th entry of both sections together. */
  ghost function Entry(snap: Snapshot, j: nat): Peer
    requires j < |snap.newPeers| + |snap.triedPeers|
  {
    if j < |snap.newPeers| then snap.newPeers[j] else snap.triedPeers[j - |snap.newPeers|]
  }

  lemma {:induction false} RowMatches(k: Hashing, s: State, b: nat, p: nat)
    requires Inv(k, s, {}, 0) && Loadable(s, Order(s))
    ensures BucketList(s, b, p) == BucketRow(Renamed(s, Order(s)).vvNew, b, p)
  {
    hide AddrIndex, RandomIndex, TriedPlaced, Tallied, Counted;
    if p > 0 {
      RowMatches(k, s, b, p - 1);
      var t := (b, p - 1);
      if t in s.vvNew {
        var id := s.vvNew[t];
        assert OwnsNew(k, s.mapInfo, id, t);
        RankOfNew(k, s, id);
      }
    }
  }

  lemma RankOfNew(k: Hashing, s: State, id: nat)
    requires Inv(k, s, {}, 0) && Loadable(s, Order(s)) && id in s.mapInfo && !s.mapInfo[id].fInTried
    ensures id in Order(s) && Rank(Order(s), id) == |Section(s.mapInfo, false, id)|
  {
    hide AddrIndex, RandomIndex, TriedPlaced, NewPlaced, Tallied, Counted, Section, Ranked, AddrRanked;
    EntryBounds(s, id);
    SectionHolds(s.mapInfo, false, s.nIdCount, id);
    RankUnique(Order(s), |Section(s.mapInfo, false, id)|);
  }

  lemma RenamedTarget(k: Hashing, s: State)
    requires Inv(k, s, {}, 0)
    ensures Loadable(s, Order(s)) && Target(k, Renamed(s, Order(s)))
  {
    hide AddrIndex, RandomIndex, TriedPlaced, NewPlaced, Tallied, Counted, Order, Enumerates;
    OrderEnumerates(k, s);
    RenamedKeeps(k, s, Order(s));
  }

  lemma SnapDescribes(k: Hashing, s: State)
    requires Inv(k, s, {}, 0)
    ensures Loadable(s, Order(s))
    ensures Describes(k, Snap(k, s), Renamed(s, Order(s)))
  {
    hide AddrIndex, RandomIndex, TriedPlaced, NewPlaced, Tallied, Counted, Section, Ranked, AddrRanked,
         BucketList, BucketRow;
    OrderEnumerates(k, s);
    RenamedKeeps(k, s, Order(s));
    var snap, r := Snap(k, s), Renamed(s, Order(s));
    SectionSorted(s.mapInfo, false, s.nIdCount);
    SectionSorted(s.mapInfo, true, s.nIdCount);
    forall j: nat | j < r.nIdCount
      ensures r.mapInfo[j].peer == Entry(snap, j) && r.mapInfo[j].fInTried == (j >= |snap.newPeers|)
    {
      SnapEntry(k, s, j);
    }
    forall b | 0 <= b < NEW_BUCKET_COUNT ensures snap.buckets[b] == BucketRow(r.vvNew, b, BUCKET_SIZE) {
      RowMatches(k, s, b, BUCKET_SIZE);
    }
  }

  lemma SnapEntry(k: Hashing, s: State, j: nat)
    requires Inv(k, s, {}, 0) && Loadable(s, Order(s)) && j < |Order(s)|
    ensures |Snap(k, s).newPeers| + |Snap(k, s).triedPeers| == |Order(s)|
    ensures RenamedInfo(s, Order(s))[j].peer == Entry(Snap(k, s), j)
    ensures RenamedInfo(s, Order(s))[j].fInTried == (j >= |Snap(k, s).newPeers|)
  {
    hide AddrIndex, RandomIndex, TriedPlaced, NewPlaced, Tallied, Counted, Section, Ranked, AddrRanked,
         BucketList, Enumerates;
    var xs, ys := Section(s.mapInfo, false, s.nIdCount), Section(s.mapInfo, true, s.nIdCount);
    if j < |xs| {
      SectionAt(k, s, false, j);
    } else {
      SectionAt(k, s, true, j - |xs|);
    }
  }

  lemma SectionAt(k: Hashing, s: State, tried: bool, i: nat)
    requires Inv(k, s, {}, 0) && i < |Section(s.mapInfo, tried, s.nIdCount)|
    ensures var id := Section(s.mapInfo, tried, s.nIdCount)[i];
            AddrBook.Known(s.mapInfo, id) && s.mapInfo[id].fInTried == tried
  {
    hide AddrIndex, RandomIndex, TriedPlaced, NewPlaced, Tallied, Counted, Section;
    SectionSorted(s.mapInfo, tried, s.nIdCount);
    var id := Section(s.mapInfo, tried, s.nIdCount)[i];
    assert Member(s.mapInfo, tried, s.nIdCount, id);
    if !tried && s.mapInfo[id].fInTried { UntriedNoRef(k, s, id); }
  }

  // ----- The counts fit the limits that loading tests -----

  lemma {:induction false} GridSize(n: nat, m: nat)
    ensures |Grid(n, m)| == n * m
  {
    hide Grid, GridRow;
    if n == 0 {
      NoGrid(m);
    } else {
      GridSize(n - 1, m);
      RowSize(n - 1, m);
      GridSplit(n, m);
      RowsAdd(n, m);
    }
  }

  lemma NoGrid(m: nat)
    ensures Grid(0, m) == {}
  {
  }

  lemma GridSplit(n: nat, m: nat)
    requires n > 0
    ensures Grid(n, m) == Grid(n - 1, m) + GridRow(n - 1, m) && Grid(n - 1, m) !! GridRow(n - 1, m)
  {
  }

  lemma RowsAdd(n: nat, m: nat)
    requires n > 0
    ensures (n - 1) * m + m == n * m
  {
  }

  ghost function Grid(n: nat, m: nat): set<Slot> {
    set b: nat, p: nat | b < n && p < m :: (b, p)
  }

  ghost function GridRow(b: nat, m: nat): set<Slot> {
    set p: nat | p < m :: (b, p)
  }

  lemma {:induction false} RowSize(b: nat, m: nat)
    ensures |GridRow(b, m)| == m
  {
    if m == 0 {
      assert GridRow(b, m) == {};
    } else {
      RowSize(b, m - 1);
      assert GridRow(b, m) == GridRow(b, m - 1) + {(b, m - 1)};
    }
  }

  /** Entries that all hold a slot are no more than the slots. */
  lemma {:induction false} HoldersFit(ids: set<nat>, table: map<Slot, nat>, slots: set<Slot>)
    requires slots <= table.Keys
    requires forall id :: id in ids ==> exists t :: t in slots && table[t] == id
    ensures |ids| <= |slots|
    decreases |ids|
  {
    if ids != {} {
      var id :| id in ids;
      var t :| t in slots && table[t] == id;
      forall x | x in ids - {id} ensures exists u :: u in slots - {t} && table[u] == x {
        var u :| u in slots && table[u] == x;
        assert u in slots - {t};
      }
      HoldersFit(ids - {id}, table, slots - {t});
    }
  }

  lemma NewFit(k: Hashing, s: State)
    requires NewPlaced(k, s.mapInfo, s.vvNew) && Counted(s.mapInfo, s.vvNew, {})
    ensures |NewIds(s.mapInfo)| <= NEW_BUCKET_COUNT * BUCKET_SIZE
  {
    forall id | id in NewIds(s.mapInfo) ensures exists t :: t in s.vvNew.Keys && s.vvNew[t] == id {
      EntryBounds(s, id);
      AddrBook.SlotCount(s.mapInfo, s.vvNew, {}, id);
      assert SlotsOf(s.vvNew, id) != {};
      var t :| t in SlotsOf(s.vvNew, id);
      assert t in s.vvNew.Keys;
    }
    HoldersFit(NewIds(s.mapInfo), s.vvNew, s.vvNew.Keys);
    forall t | t in s.vvNew.Keys ensures t in Grid(NEW_BUCKET_COUNT, BUCKET_SIZE) {
      assert OwnsNew(k, s.mapInfo, s.vvNew[t], t);
    }
    SubsetSize(s.vvNew.Keys, Grid(NEW_BUCKET_COUNT, BUCKET_SIZE));
    GridSize(NEW_BUCKET_COUNT, BUCKET_SIZE);
  }

  lemma TriedFit(k: Hashing, s: State)
    requires TriedPlaced(k, s.mapInfo, s.vvTried)
    ensures |TriedIds(s.mapInfo)| <= TRIED_BUCKET_COUNT * BUCKET_SIZE
  {
    forall id | id in TriedIds(s.mapInfo) ensures exists t :: t in s.vvTried.Keys && s.vvTried[t] == id {
      assert k.TriedSlot(s.mapInfo[id].peer.svc) in s.vvTried.Keys;
    }
    HoldersFit(TriedIds(s.mapInfo), s.vvTried, s.vvTried.Keys);
    forall t | t in s.vvTried.Keys ensures t in Grid(TRIED_BUCKET_COUNT, BUCKET_SIZE) {
      assert OwnsTried(k, s.mapInfo, s.vvTried[t], t);
    }
    SubsetSize(s.vvTried.Keys, Grid(TRIED_BUCKET_COUNT, BUCKET_SIZE));
    GridSize(TRIED_BUCKET_COUNT, BUCKET_SIZE);
  }

  /** A consistent manager is never refused for its size. */
  lemma CountsFit(k: Hashing, s: State)
    requires Inv(k, s, {}, 0)
    ensures 0 <= s.nNew <= NEW_BUCKET_COUNT * BUCKET_SIZE && 0 <= s.nTried <= TRIED_BUCKET_COUNT * BUCKET_SIZE
  {
    hide AddrIndex, RandomIndex, NewPlaced, TriedPlaced, Counted;
    NewFit(k, s);
    TriedFit(k, s);
    assert NewIds(s.mapInfo) - {} == NewIds(s.mapInfo);
  }

  // ----- Unserialize -----

  /** The tables after Clear. */
  const Cleared: State := State(0, map[], map[], [], map[], map[], 0, 0, 1)

  /** Add an entry at the end of vRandom. */
  ghost function Append(s: State, id: nat, info: Info): State {
    s.(mapInfo := s.mapInfo[id := info.(nRandomPos := |s.vRandom|)],
       mapAddr := s.mapAddr[info.peer.svc.ip := id],
       vRandom := s.vRandom + [id])
  }

  method AppendEntry(m: A.AddrMan, id: nat, info: Info)
    requires m.Shape()
    modifies m`mapInfo, m`mapAddr, m`vRandom
    ensures m.Shape() && m.Tables() == Append(old(m.Tables()), id, info)
  {
    hide A.Slots, A.Sane;
    m.mapAddr := m.mapAddr[info.peer.svc.ip := id];
    m.mapInfo := m.mapInfo[id := info.(nRandomPos := |m.vRandom|)];
    m.vRandom := m.vRandom + [id];
  }

  lemma AppendStep(k: Hashing, snap: Snapshot, r: State, j: nat)
    requires Target(k, r) && Describes(k, snap, r) && j < r.nIdCount
    ensures var p, q := Part(r, j, map[]), Part(r, j + 1, map[]);
            var peer := Entry(snap, j);
            var x := Append(p, j, Info(peer, 0, j >= |snap.newPeers|, 0));
            && q.mapInfo == x.mapInfo && q.mapAddr == x.mapAddr && q.vRandom == x.vRandom
            && (if j < |snap.newPeers| then q.vvTried == p.vvTried
                else k.TriedSlot(peer.svc) !in p.vvTried && q.vvTried == p.vvTried[k.TriedSlot(peer.svc) := j])
  {
    hide Inv, PartInfo, PartMap;
    PartStep(k, r, j);
    assert r.mapInfo[j].peer == Entry(snap, j);
    assert r.mapInfo[j].nRandomPos == j;
  }

  /** The first loop: the entries of the new section. */
  method LoadNew(m: A.AddrMan, snap: Snapshot, ghost k: Hashing, ghost r: State)
    requires Target(k, r) && Describes(k, snap, r)
    requires m.Shape() && m.nKey == k && m.Tables() == Cleared.(nNew := snap.nNew, nTried := snap.nTried)
    modifies m`nIdCount, m`mapInfo, m`mapAddr, m`vRandom
    ensures m.Shape() && m.Tables() == Part(r, |snap.newPeers|, map[])
  {
    hide Inv, A.Slots, A.Sane, PartInfo, PartMap;
    PartStart(r);
    var n := 0;
    while n < m.nNew
      invariant 0 <= n <= m.nNew && m.nNew == snap.nNew && m.nTried == snap.nTried
      invariant m.Shape() && m.Tables() == Part(r, n, map[]).(nIdCount := 0)
    {
      AppendStep(k, snap, r, n);
      AppendEntry(m, n, Info(snap.newPeers[n], 0, false, 0));
      n := n + 1;
    }
    m.nIdCount := m.nNew;
  }

  ghost function AppendTried(k: Hashing, s: State, peer: Peer): State {
    Append(s, s.nIdCount, Info(peer, 0, true, 0)).(
      vvTried := s.vvTried[k.TriedSlot(peer.svc) := s.nIdCount],
      nIdCount := s.nIdCount + 1)
  }

  lemma TriedStep(k: Hashing, snap: Snapshot, r: State, n: nat)
    requires Target(k, r) && Describes(k, snap, r) && n < |snap.triedPeers|
    ensures Full(r) && |snap.newPeers| + n < r.nIdCount
    ensures k.TriedSlot(snap.triedPeers[n].svc) !in Part(r, |snap.newPeers| + n, map[]).vvTried
    ensures Part(r, |snap.newPeers| + (n + 1), map[]) ==
              AppendTried(k, Part(r, |snap.newPeers| + n, map[]), snap.triedPeers[n])
  {
    hide Inv, PartInfo, PartMap;
    AppendStep(k, snap, r, |snap.newPeers| + n);
  }

  /** One entry of the tried section: into its own slot if that is free, else it is lost. */
  method LoadTriedEntry(m: A.AddrMan, peer: Peer) returns (lost: nat)
    requires m.Shape()
    modifies m`nIdCount, m`mapInfo, m`mapAddr, m`vRandom, m.vvTried
    ensures m.Shape()
    ensures var s := old(m.Tables()); var t := m.nKey.TriedSlot(peer.svc);
            if t in s.vvTried then lost == 1 && m.Tables() == s
            else lost == 0 && m.Tables() == AppendTried(m.nKey, s, peer)
  {
    hide A.Slots, A.Sane;
    var info := Info(peer, 0, false, 0);
    var nKBucket := m.nKey.TriedBucket(info.peer.svc);
    var nKBucketPos := m.nKey.Position(info.peer.svc, false, nKBucket);
    if m.vvTried[nKBucket, nKBucketPos] == -1 {
      AppendEntry(m, m.nIdCount, info.(fInTried := true));
      A.Store(m.vvTried, nKBucket, nKBucketPos, m.nIdCount);
      m.nIdCount := m.nIdCount + 1;
      lost := 0;
    } else {
      lost := 1;
    }
  }

  /** The second loop: the entries of the tried section. */
  method LoadTried(m: A.AddrMan, snap: Snapshot, ghost k: Hashing, ghost r: State)
    requires Target(k, r) && Describes(k, snap, r)
    requires Full(r) && |snap.newPeers| <= r.nIdCount
    requires m.Shape() && m.nKey == k && m.Tables() == Part(r, |snap.newPeers|, map[])
    modifies m`nIdCount, m`mapInfo, m`mapAddr, m`vRandom, m`nTried, m.vvTried
    ensures m.Shape() && m.Tables() == Part(r, r.nIdCount, map[])
  {
    hide Target, Describes, A.Slots, A.Sane, PartInfo, PartMap, Full, AppendTried;
    Basics(k, snap, r);
    var nLost := 0;
    var n := 0;
    while n < snap.nTried
      invariant 0 <= n <= snap.nTried && nLost == 0
      invariant m.nTried == snap.nTried
      invariant m.Shape() && m.Tables() == Part(r, |snap.newPeers| + n, map[])
    {
      TriedStep(k, snap, r, n);
      var lost := LoadTriedEntry(m, snap.triedPeers[n]);
      nLost := nLost + lost;
      n := n + 1;
    }
    m.nTried := m.nTried - nLost;
  }

  lemma Basics(k: Hashing, snap: Snapshot, r: State)
    requires Target(k, r) && Describes(k, snap, r)
    ensures Full(r) && r.nLastGood == 1
    ensures snap.nNew == r.nNew == |snap.newPeers| && snap.nTried == r.nTried == |snap.triedPeers|
    ensures r.nIdCount == |snap.newPeers| + |snap.triedPeers|
  {
  }

  lemma PartStart(r: State)
    requires Full(r)
    ensures Part(r, 0, map[]).(nIdCount := 0) == Cleared.(nNew := r.nNew, nTried := r.nTried)
  {
  }

  /** Rows only grow with the position. */
  lemma {:induction false} RowPrefix(table: map<Slot, nat>, b: nat, p: nat, q: nat)
    requires p <= q
    ensures BucketRow(table, b, p) <= BucketRow(table, b, q)
  {
    if p < q { RowPrefix(table, b, p, q - 1); }
  }

  /** The position of the next listed entry. */
  lemma {:induction false} NextOccupied(table: map<Slot, nat>, b: nat, q: nat, size: nat) returns (p: nat)
    requires q <= size && |BucketRow(table, b, q)| < |BucketRow(table, b, size)|
    ensures q <= p < size && (b, p) in table
    ensures BucketRow(table, b, size)[|BucketRow(table, b, q)|] == table[(b, p)]
    ensures BucketRow(table, b, p + 1) == BucketRow(table, b, q) + [table[(b, p)]]
    ensures Done(table, b, p) == Done(table, b, q)
    decreases size - q
  {
    if (b, q) in table {
      p := q;
      RowPrefix(table, b, q + 1, size);
    } else {
      DoneIdle(table, b, q);
      p := NextOccupied(table, b, q + 1, size);
    }
  }

  /** One index of a bucket: the entry gets the slot if it is free and its count below the limit. */
  method LoadSlot(m: A.AddrMan, bucket: nat, nIndex: nat)
    requires m.Shape() && bucket < NEW_BUCKET_COUNT && nIndex in m.mapInfo
    modifies m`mapInfo, m.vvNew
    ensures m.Shape()
    ensures var s := old(m.Tables()); var t := (bucket, m.nKey.Position(s.mapInfo[nIndex].peer.svc, true, bucket));
            m.Tables() == if nIndex < s.nNew && t !in s.vvNew && s.mapInfo[nIndex].nRefCount < NEW_BUCKETS_PER_ADDRESS
                          then PutSlot(s, t, nIndex) else s
  {
    hide A.Slots, A.Sane;
    if 0 <= nIndex < m.nNew {
      var nUBucketPos := m.nKey.Position(m.mapInfo[nIndex].peer.svc, true, bucket);
      if m.vvNew[bucket, nUBucketPos] == -1 && m.mapInfo[nIndex].nRefCount < NEW_BUCKETS_PER_ADDRESS {
        m.EnterNew(bucket, nUBucketPos, nIndex);
      }
    }
  }

  /** Handing out the slot of a listed entry, as LoadSlot does it. */
  lemma SlotStep(k: Hashing, snap: Snapshot, r: State, b: nat, p: nat)
    requires Target(k, r) && Describes(k, snap, r) && (b, p) in r.vvNew
    ensures Full(r)
    ensures var j := r.vvNew[(b, p)]; var s := Part(r, r.nIdCount, Done(r.vvNew, b, p));
            && j in s.mapInfo && j < s.nNew && k.Position(s.mapInfo[j].peer.svc, true, b) == p
            && (b, p) !in s.vvNew && s.mapInfo[j].nRefCount < NEW_BUCKETS_PER_ADDRESS
            && Part(r, r.nIdCount, Done(r.vvNew, b, p + 1)) == PutSlot(s, (b, p), j)
  {
    hide AddrIndex, RandomIndex, TriedPlaced, NewPlaced, Counted, Tallied, PartMap, SlotsOf;
    PutStep(k, r, b, p);
    DropSlotPlaced(k, r.mapInfo, r.vvNew, (b, p));
  }

  /** The indices of one bucket. */
  method LoadBucket(m: A.AddrMan, bucket: nat, snap: Snapshot, ghost k: Hashing, ghost r: State)
    requires Target(k, r) && Describes(k, snap, r) && Full(r)
    requires bucket < NEW_BUCKET_COUNT == |snap.buckets|
    requires snap.buckets[bucket] == BucketRow(r.vvNew, bucket, BUCKET_SIZE)
    requires m.Shape() && m.nKey == k && m.Tables() == Part(r, r.nIdCount, Done(r.vvNew, bucket, 0))
    modifies m`mapInfo, m.vvNew
    ensures m.Shape() && m.Tables() == Part(r, r.nIdCount, Done(r.vvNew, bucket, BUCKET_SIZE))
  {
    hide Target, Describes, A.Slots, A.Sane, Part, Full, Done, PutSlot, BucketRow;
    var row := snap.buckets[bucket];
    ghost var q := 0;
    EmptyRow(r.vvNew, bucket);
    var n := 0;
    while n < |row|
      invariant n <= |row| && q <= BUCKET_SIZE
      invariant |BucketRow(r.vvNew, bucket, q)| == n
      invariant m.Shape() && m.Tables() == Part(r, r.nIdCount, Done(r.vvNew, bucket, q))
    {
      ghost var p := NextOccupied(r.vvNew, bucket, q, BUCKET_SIZE);
      SlotStep(k, snap, r, bucket, p);
      LoadSlot(m, bucket, row[n]);
      q := p + 1;
      n := n + 1;
    }
    RowDone(r.vvNew, bucket, q, BUCKET_SIZE);
  }

  lemma EmptyRow(table: map<Slot, nat>, b: nat)
    ensures BucketRow(table, b, 0) == []
  {
  }

  lemma {:induction false} RowDone(table: map<Slot, nat>, b: nat, q: nat, size: nat)
    requires q <= size && |BucketRow(table, b, q)| >= |BucketRow(table, b, size)|
    ensures Done(table, b, q) == Done(table, b, size)
    decreases size - q
  {
    if q < size {
      RowPrefix(table, b, q + 1, size);
      DoneIdle(table, b, q);
      RowDone(table, b, q + 1, size);
    }
  }

  /** The last two loops: the slots of the new table, then the search for entries without one. */
  method LoadSlots(m: A.AddrMan, snap: Snapshot, nUBuckets: nat, ghost k: Hashing, ghost r: State)
    requires Target(k, r) && Describes(k, snap, r) && Full(r) && nUBuckets == NEW_BUCKET_COUNT
    requires m.Shape() && m.nKey == k && m.Tables() == Part(r, r.nIdCount, map[])
    modifies m`mapInfo, m.vvNew
    ensures m.Shape() && m.Tables() == r
  {
    hide Target, A.Slots, A.Sane, Part, Full, Done, BucketRow;
    NoneDone(r.vvNew);
    var bucket := 0;
    while bucket < nUBuckets
      invariant bucket <= nUBuckets
      invariant m.Shape() && m.Tables() == Part(r, r.nIdCount, Done(r.vvNew, bucket, 0))
    {
      LoadBucket(m, bucket, snap, k, r);
      BucketDone(k, r, bucket);
      bucket := bucket + 1;
    }
    BucketDone(k, r, 0);
    PartEnd(k, r);
    NothingToPrune(k, r);
    var id := 0;
    while id < m.nIdCount
      invariant m.Shape() && m.Tables() == r
    {
      if id in m.mapInfo && !m.mapInfo[id].fInTried && m.mapInfo[id].nRefCount == 0 {
        assert false;
      }
      id := id + 1;
    }
  }

  lemma NoneDone(table: map<Slot, nat>)
    ensures Done(table, 0, 0) == map[]
  {
  }

  lemma BucketDone(k: Hashing, r: State, b: nat)
    requires Target(k, r)
    ensures Done(r.vvNew, b, BUCKET_SIZE) == Done(r.vvNew, b + 1, 0)
    ensures Done(r.vvNew, NEW_BUCKET_COUNT, 0) == r.vvNew
  {
    hide AddrIndex, RandomIndex, TriedPlaced, NewPlaced, Counted, Tallied, Done;
    DoneBucket(k, r, b);
  }

  lemma NothingToPrune(k: Hashing, r: State)
    requires Target(k, r)
    ensures forall id :: id in r.mapInfo && !r.mapInfo[id].fInTried ==> r.mapInfo[id].nRefCount != 0
  {
    hide AddrIndex, RandomIndex, TriedPlaced, NewPlaced, Tallied;
  }

  /** Unserialize into a freshly constructed manager, for a stream that Serialize wrote. */
  method Unserialize(m: A.AddrMan, snap: Snapshot, ghost k: Hashing, ghost s: State) returns (ok: bool)
    requires Inv(k, s, {}, 0) && snap == Snap(k, s)
    requires m.Shape() && m.nKey == k.(nKey := m.nKey.nKey) && m.Tables() == Cleared
    modifies m, m.vvNew, m.vvTried
    ensures ok && m.Valid() && m.nKey == k
    ensures Loadable(s, Order(s)) && m.Tables() == Renamed(s, Order(s))
    ensures Timed(s.mapInfo) ==> Timed(m.mapInfo)
    ensures AddrBook.Viewable(s) && m.Book() == StoredBook(AddrBook.View(s))
  {
    hide Indexed, TriedPlaced, NewPlaced, Counted, Timed, Tallied, A.Slots, A.Sane, Order, Enumerates, Part,
         Loadable, Renamed, Snap, AddrBook.View, StoredBook;
    RenamedTarget(k, s);
    SnapDescribes(k, s);
    ghost var r := Renamed(s, Order(s));
    CountsFit(k, r);
    OrderEnumerates(k, s);
    RenamedView(k, s, Order(s));
    if Timed(s.mapInfo) { RenamedTimed(s, Order(s)); }
    ok := false;
    if snap.nKeySize != 32 {
      assert false;
      return;
    }
    m.nKey := m.nKey.(nKey := snap.nKey);
    m.nNew, m.nTried := snap.nNew, snap.nTried;
    var nUBuckets := snap.nUBuckets;
    if snap.nVersion != 0 {
      nUBuckets := Flip30(nUBuckets);
    }
    if m.nNew > NEW_BUCKET_COUNT * BUCKET_SIZE || m.nTried > TRIED_BUCKET_COUNT * BUCKET_SIZE {
      assert false;
      return;
    }
    LoadNew(m, snap, k, r);
    LoadTried(m, snap, k, r);
    LoadSlots(m, snap, nUBuckets, k, r);
    ok := true;
  }

  /** Saving a manager and loading it into a new one: nothing is lost and the copy is consistent. */
  method SaveAndLoad(m: A.AddrMan, freshKey: nat) returns (copy: A.AddrMan)
    requires m.Valid()
    ensures fresh(copy) && copy.Valid() && copy.nKey == m.nKey
    ensures copy.Book() == StoredBook(m.Book()) && (Timed(m.mapInfo) ==> Timed(copy.mapInfo))
  {
    hide Inv, Timed, Order, Loadable, Renamed, Snap, AddrBook.View, StoredBook, A.Slots, A.Sane;
    var snap := Serialize(m);
    copy := new A.AddrMan(m.nKey.(nKey := freshKey));
    var ok := Unserialize(copy, snap, m.nKey, m.Tables());
  }
}
