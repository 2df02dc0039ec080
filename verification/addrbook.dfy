/** What the address manager is for, without its indexes.
  *
  * A `Book` says which peers are known, which slots of the new table and which slots
  * of the tried table hold which address. It has no ids, no reference counts, no
  * shuffled vector and no counters. `View` reads a book off a consistent `State`, and
  * the lemmas below show that every operation on the tables is the simple operation on
  * the book.
  */
module AddrBook {
  import opened AddrTables

  datatype Book = Book(
    peers: map<NetAddr, Peer>,
    newSlots: map<Slot, NetAddr>,
    triedSlots: map<Slot, NetAddr>)

  /** Slots hold known addresses. */
  ghost predicate Closed(b: Book) {
    && (forall t :: t in b.newSlots ==> b.newSlots[t] in b.peers)
    && (forall t :: t in b.triedSlots ==> b.triedSlots[t] in b.peers)
  }

  // ----- Operations on a book -----

  /** Take away slot t of the new table; its occupant is forgotten if that was its last slot. */
  ghost function Release(b: Book, t: Slot): Book {
    if t !in b.newSlots then b else
    var a := b.newSlots[t];
    b.(newSlots := b.newSlots - {t},
       peers := if |SlotsOf(b.newSlots, a)| == 1 then b.peers - {a} else b.peers)
  }

  /** Move address a to its tried slot; an address already there goes back to the new table. */
  ghost function Promote(k: Hashing, b: Book, a: NetAddr): Book
    requires a in b.peers && Closed(b)
  {
    var t := k.TriedSlot(b.peers[a].svc);
    var b1 := b.(newSlots := b.newSlots - SlotsOf(b.newSlots, a));
    var b2 := if t !in b.triedSlots then b1 else
              var evicted := b.triedSlots[t];
              var u := k.NewSlot(b.peers[evicted].svc, b.peers[evicted].source);
              var b3 := Release(b1, u);
              b3.(newSlots := b3.newSlots[u := evicted]);
    b2.(triedSlots := b2.triedSlots[t := a])
  }

  /** A peer answered. */
  ghost function Good(k: Hashing, b: Book, svc: Service, nTime: int): Book
    requires Closed(b)
  {
    if svc.ip !in b.peers || b.peers[svc.ip].svc != svc then b else
    var p := b.peers[svc.ip].(nLastSuccess := nTime, nLastTry := nTime, nAttempts := 0);
    var b1 := b.(peers := b.peers[svc.ip := p]);
    if SlotsOf(b.triedSlots, svc.ip) != {} then b1 else Promote(k, b1, svc.ip)
  }

  /** Offer address a, announced by source, a place in the new table. */
  ghost function Place(k: Hashing, b: Book, a: NetAddr, source: NetAddr, now: int): Book
    requires a in b.peers && Closed(b)
  {
    var t := k.NewSlot(b.peers[a].svc, source);
    if t !in b.newSlots then b.(newSlots := b.newSlots[t := a]) else
    var other := b.newSlots[t];
    var homeless := SlotsOf(b.newSlots, a) == {};
    if other == a then b
    else if b.peers[other].IsTerrible(now) || (|SlotsOf(b.newSlots, other)| > 1 && homeless) then
      var b1 := Release(b, t);
      b1.(newSlots := b1.newSlots[t := a])
    else if homeless then b.(peers := b.peers - {a})
    else b
  }

  /** A peer is announced. */
  ghost function Add(k: Hashing, b: Book, addr: Address, source: NetAddr, penalty: int, now: int, roll: nat): Book
    requires Closed(b)
  {
    var a := addr.svc.ip;
    if a in b.peers then
      var p := Refreshed(b.peers[a], addr, penalty, now);
      var b1 := b.(peers := b.peers[a := p]);
      var held := |SlotsOf(b.newSlots, a)|;
      if NoNews(p, addr) || SlotsOf(b.triedSlots, a) != {} || held == NEW_BUCKETS_PER_ADDRESS || roll != 0
      then b1
      else Place(k, b1, a, source, now)
    else
      var p := Peer(addr.svc, addr.nServices, Stamp(addr.nTime - penalty), source, 0, 0, 0, 0);
      Place(k, b.(peers := b.peers[a := p]), a, source, now)
  }

  // ----- The book of a consistent state -----

  ghost function PeerAt(info: map<nat, Info>, id: nat): Peer
    requires Known(info, id)
  {
    info[id].peer
  }

  ghost predicate Known(info: map<nat, Info>, id: nat) {
    id in info
  }

  ghost predicate AllKnown(info: map<nat, Info>, table: map<Slot, nat>) {
    forall t :: t in table ==> Known(info, table[t])
  }

  ghost function Peers(info: map<nat, Info>, addr: map<NetAddr, nat>): (r: map<NetAddr, Peer>)
    requires AddrIndex(info, addr)
    ensures r.Keys == addr.Keys
  {
    assert forall a :: a in addr ==> HasAddr(info, addr[a], a) && Known(info, addr[a]);
    map a | a in addr :: PeerAt(info, addr[a])
  }

  ghost function Names(info: map<nat, Info>, table: map<Slot, nat>): map<Slot, NetAddr>
    requires AllKnown(info, table)
  {
    map t | t in table :: PeerAt(info, table[t]).svc.ip
  }

  ghost predicate Viewable(s: State) {
    && AddrIndex(s.mapInfo, s.mapAddr)
    && AllKnown(s.mapInfo, s.vvNew)
    && AllKnown(s.mapInfo, s.vvTried)
  }

  ghost function View(s: State): Book
    requires Viewable(s)
  {
    Book(Peers(s.mapInfo, s.mapAddr), Names(s.mapInfo, s.vvNew), Names(s.mapInfo, s.vvTried))
  }

  lemma InvViewable(k: Hashing, s: State, limbo: set<nat>, owed: int)
    requires Inv(k, s, limbo, owed)
    ensures Viewable(s)
  {
    hide RandomIndex, Counted, Tallied;
    forall t | t in s.vvNew ensures Known(s.mapInfo, s.vvNew[t]) {
      assert OwnsNew(k, s.mapInfo, s.vvNew[t], t);
    }
    forall t | t in s.vvTried ensures Known(s.mapInfo, s.vvTried[t]) {
      assert OwnsTried(k, s.mapInfo, s.vvTried[t], t);
    }
  }

  /** An address holds exactly the slots its id holds. */
  lemma SlotsOfName(info: map<nat, Info>, addr: map<NetAddr, nat>, table: map<Slot, nat>, id: nat)
    requires AddrIndex(info, addr) && id in info
    requires AllKnown(info, table)
    ensures SlotsOf(Names(info, table), info[id].peer.svc.ip) == SlotsOf(table, id)
  {
    var a := info[id].peer.svc.ip;
    var names := Names(info, table);
    forall t | t in table ensures (names[t] == a) == (table[t] == id) {
      assert Known(info, table[t]);
      if names[t] == a {
        assert addr[info[table[t]].peer.svc.ip] == table[t];
      }
    }
  }

  // ----- How the steps on the tables look in the book -----

  lemma NamesUpdate(info: map<nat, Info>, table: map<Slot, nat>, id: nat, x: Info)
    requires id in info && x.peer.svc.ip == info[id].peer.svc.ip
    requires AllKnown(info, table)
    ensures AllKnown(info[id := x], table)
    ensures Names(info[id := x], table) == Names(info, table)
  {
    var info' := info[id := x];
    forall t | t in table ensures Known(info', table[t]) {
      assert Known(info, table[t]);
    }
  }

  lemma PeersUpdate(info: map<nat, Info>, addr: map<NetAddr, nat>, id: nat, x: Info)
    requires AddrIndex(info, addr) && id in info && x.peer.svc.ip == info[id].peer.svc.ip
    ensures AddrIndex(info[id := x], addr)
    ensures Peers(info[id := x], addr) == Peers(info, addr)[x.peer.svc.ip := x.peer]
  {
    var info' := info[id := x];
    assert AddrIndex(info', addr);
    forall a | a in addr
      ensures PeerAt(info', addr[a]) == if a == x.peer.svc.ip then x.peer else PeerAt(info, addr[a])
    {
      assert HasAddr(info, addr[a], a);
    }
  }

  lemma NamesSame(m: map<nat, Info>, n: map<nat, Info>, table: map<Slot, nat>)
    requires SameEntries(m, n)
    requires AllKnown(m, table)
    ensures AllKnown(n, table)
    ensures Names(m, table) == Names(n, table)
  {
    forall t | t in table ensures Known(n, table[t]) {
      assert Known(m, table[t]);
    }
  }

  lemma PeersSame(m: map<nat, Info>, n: map<nat, Info>, addr: map<NetAddr, nat>)
    requires SameEntries(m, n) && AddrIndex(m, addr)
    ensures AddrIndex(n, addr)
    ensures Peers(m, addr) == Peers(n, addr)
  {
    SameEntriesIndex(m, n, addr);
    forall a | a in addr ensures PeerAt(m, addr[a]) == PeerAt(n, addr[a]) {
      assert HasAddr(m, addr[a], a);
    }
  }

  lemma NamesRemove(info: map<nat, Info>, table: map<Slot, nat>, id: nat)
    requires AllKnown(info, table)
    requires SlotsOf(table, id) == {}
    ensures AllKnown(info - {id}, table)
    ensures Names(info - {id}, table) == Names(info, table)
  {
    forall t | t in table ensures Known(info - {id}, table[t]) {
      assert Known(info, table[t]);
      assert t !in SlotsOf(table, id);
    }
  }

  lemma PeersRemove(info: map<nat, Info>, addr: map<NetAddr, nat>, id: nat)
    requires AddrIndex(info, addr) && id in info
    ensures AddrIndex(info - {id}, addr - {info[id].peer.svc.ip})
    ensures Peers(info - {id}, addr - {info[id].peer.svc.ip}) == Peers(info, addr) - {info[id].peer.svc.ip}
  {
    var addr' := addr - {info[id].peer.svc.ip};
    assert AddrIndex(info - {id}, addr');
    forall a | a in addr' ensures PeerAt(info - {id}, addr'[a]) == PeerAt(info, addr[a]) {
      assert HasAddr(info, addr[a], a);
      assert HasAddr(info - {id}, addr'[a], a);
    }
  }

  lemma NoTriedSlots(k: Hashing, info: map<nat, Info>, table: map<Slot, nat>, id: nat)
    requires TriedPlaced(k, info, table) && id in info && !info[id].fInTried
    ensures SlotsOf(table, id) == {}
  {
    forall t | t in table ensures table[t] != id {
      assert OwnsTried(k, info, table[t], t);
    }
  }

  /** Putting an entry into a slot of either table names the slot after its address. */
  lemma NamesPut(info: map<nat, Info>, table: map<Slot, nat>, t: Slot, id: nat)
    requires id in info
    requires AllKnown(info, table)
    ensures AllKnown(info, table[t := id])
    ensures Names(info, table[t := id]) == Names(info, table)[t := info[id].peer.svc.ip]
  {
    var table' := table[t := id];
    forall u | u in table' ensures Known(info, table'[u]) {
      assert u != t ==> Known(info, table[u]);
    }
  }

  lemma NamesDrop(info: map<nat, Info>, table: map<Slot, nat>, ts: set<Slot>)
    requires AllKnown(info, table)
    ensures AllKnown(info, table - ts)
    ensures Names(info, table - ts) == Names(info, table) - ts
  {
    var table' := table - ts;
    forall u | u in table' ensures Known(info, table'[u]) {
      assert Known(info, table[u]);
    }
  }

  lemma ViewPut(s: State, t: Slot, id: nat)
    requires Viewable(s) && id in s.mapInfo
    ensures Viewable(PutSlot(s, t, id))
    ensures View(PutSlot(s, t, id)) == View(s).(newSlots := View(s).newSlots[t := s.mapInfo[id].peer.svc.ip])
  {
    hide AddrIndex, Peers, Names;
    var x := s.mapInfo[id].(nRefCount := s.mapInfo[id].nRefCount + 1);
    PeersUpdate(s.mapInfo, s.mapAddr, id, x);
    NamesPut(s.mapInfo, s.vvNew, t, id);
    NamesUpdate(s.mapInfo, s.vvNew[t := id], id, x);
    NamesUpdate(s.mapInfo, s.vvTried, id, x);
    PeerIn(s.mapInfo, s.mapAddr, id);
  }

  lemma PeerIn(info: map<nat, Info>, addr: map<NetAddr, nat>, id: nat)
    requires AddrIndex(info, addr) && id in info
    ensures var a := info[id].peer.svc.ip;
            && a in Peers(info, addr) && Peers(info, addr)[a] == info[id].peer
            && Peers(info, addr)[a := info[id].peer] == Peers(info, addr)
  {
  }

  lemma ViewDrop(s: State, t: Slot)
    requires Viewable(s) && t in s.vvNew && s.vvNew[t] in s.mapInfo
    ensures Viewable(DropSlot(s, t))
    ensures View(DropSlot(s, t)) == View(s).(newSlots := View(s).newSlots - {t})
  {
    hide AddrIndex, Peers, Names;
    var id := s.vvNew[t];
    var x := s.mapInfo[id].(nRefCount := s.mapInfo[id].nRefCount - 1);
    PeersUpdate(s.mapInfo, s.mapAddr, id, x);
    PeerIn(s.mapInfo, s.mapAddr, id);
    NamesDrop(s.mapInfo, s.vvNew, {t});
    NamesUpdate(s.mapInfo, s.vvNew - {t}, id, x);
    NamesUpdate(s.mapInfo, s.vvTried, id, x);
  }

  lemma ViewDelete(k: Hashing, s: State, id: nat, limbo: set<nat>, owed: int)
    requires Inv(k, s, limbo, owed) && id in limbo && id in s.mapInfo
    ensures Viewable(s) && Viewable(Delete(s, id))
    ensures View(Delete(s, id)) == View(s).(peers := View(s).peers - {s.mapInfo[id].peer.svc.ip})
  {
    hide AddrIndex, RandomIndex, TriedPlaced, NewPlaced, Counted, Peers, Names, Delete, SameEntries;
    InvViewable(k, s, limbo, owed);
    DeleteIndexed(s, id);
    DeleteCounted(s.mapInfo, s.vvNew, limbo, id);
    NoTriedSlots(k, s.mapInfo, s.vvTried, id);
    PeersRemove(s.mapInfo, s.mapAddr, id);
    NamesRemove(s.mapInfo, s.vvNew, id);
    NamesRemove(s.mapInfo, s.vvTried, id);
    var m := s.mapInfo - {id};
    var r := Delete(s, id);
    PeersSame(m, r.mapInfo, r.mapAddr);
    NamesSame(m, r.mapInfo, s.vvNew);
    NamesSame(m, r.mapInfo, s.vvTried);
  }

  lemma ViewClear(k: Hashing, s: State, t: Slot, limbo: set<nat>, owed: int)
    requires Inv(k, s, limbo, owed)
    ensures Viewable(s) && (t in s.vvNew ==> s.vvNew[t] in s.mapInfo)
    ensures Viewable(ClearNew(s, t))
    ensures View(ClearNew(s, t)) == Release(View(s), t)
  {
    hide AddrIndex, RandomIndex, TriedPlaced, NewPlaced, Counted, Peers, Delete;
    InvViewable(k, s, limbo, owed);
    if t in s.vvNew {
      var id := s.vvNew[t];
      DropSlotKeeps(k, s, t, limbo, owed);
      ViewDrop(s, t);
      SlotsOfName(s.mapInfo, s.mapAddr, s.vvNew, id);
      SlotCount(s.mapInfo, s.vvNew, limbo, id);
      if s.mapInfo[id].nRefCount == 1 {
        ViewDelete(k, DropSlot(s, t), id, limbo + {id}, owed + 1);
      }
    }
  }

  lemma SlotCount(info: map<nat, Info>, table: map<Slot, nat>, limbo: set<nat>, id: nat)
    requires Counted(info, table, limbo) && id in info
    ensures info[id].nRefCount == |SlotsOf(table, id)|
  {
  }

  lemma ViewReadmit(k: Hashing, s: State, id: nat, limbo: set<nat>)
    requires Inv(k, s, limbo, 0) && id in limbo && id in s.mapInfo
    ensures var p := s.mapInfo[id].peer;
            var u := k.NewSlot(p.svc, p.source);
            && Viewable(s) && (u in s.vvNew ==> s.vvNew[u] in s.mapInfo && s.vvNew[u] != id)
            && Viewable(Readmit(k, s, id))
            && var b := Release(View(s), u); View(Readmit(k, s, id)) == b.(newSlots := b.newSlots[u := p.svc.ip])
  {
    hide AddrIndex, RandomIndex, TriedPlaced, NewPlaced, Counted, Tallied, Peers, Names, ClearNew, Release,
         SlotsOf;
    var u := k.NewSlot(s.mapInfo[id].peer.svc, s.mapInfo[id].peer.source);
    ViewClear(k, s, u, limbo, 0);
    ReadmitKeeps(k, s, id, limbo);
    ClearNewOthers(s, u);
    var s1 := ClearNew(s, u);
    ViewPut(s1, u, id);
  }

  lemma ViewUnplace(s: State, id: nat)
    requires Viewable(s) && id in s.mapInfo
    ensures Viewable(Unplace(s, id))
    ensures var a := s.mapInfo[id].peer.svc.ip;
            View(Unplace(s, id)) == View(s).(newSlots := View(s).newSlots - SlotsOf(View(s).newSlots, a))
  {
    hide AddrIndex, Peers, Names;
    var x := s.mapInfo[id].(nRefCount := 0);
    SlotsOfName(s.mapInfo, s.mapAddr, s.vvNew, id);
    PeersUpdate(s.mapInfo, s.mapAddr, id, x);
    PeerIn(s.mapInfo, s.mapAddr, id);
    var ts := SlotsOf(s.vvNew, id);
    NamesDrop(s.mapInfo, s.vvNew, ts);
    NamesUpdate(s.mapInfo, s.vvNew - ts, id, x);
    NamesUpdate(s.mapInfo, s.vvTried, id, x);
  }

  lemma ViewUnset(s: State, t: Slot)
    requires Viewable(s) && t in s.vvTried && s.vvTried[t] in s.mapInfo
    ensures Viewable(UnsetTried(s, t))
    ensures View(UnsetTried(s, t)) == View(s).(triedSlots := View(s).triedSlots - {t})
  {
    hide AddrIndex, Peers, Names;
    var id := s.vvTried[t];
    var x := s.mapInfo[id].(fInTried := false);
    PeersUpdate(s.mapInfo, s.mapAddr, id, x);
    PeerIn(s.mapInfo, s.mapAddr, id);
    NamesDrop(s.mapInfo, s.vvTried, {t});
    NamesUpdate(s.mapInfo, s.vvTried - {t}, id, x);
    NamesUpdate(s.mapInfo, s.vvNew, id, x);
  }

  lemma ViewSet(s: State, t: Slot, id: nat)
    requires Viewable(s) && id in s.mapInfo
    ensures Viewable(SetTried(s, t, id))
    ensures View(SetTried(s, t, id)) == View(s).(triedSlots := View(s).triedSlots[t := s.mapInfo[id].peer.svc.ip])
  {
    hide AddrIndex, Peers, Names;
    var x := s.mapInfo[id].(fInTried := true);
    PeersUpdate(s.mapInfo, s.mapAddr, id, x);
    PeerIn(s.mapInfo, s.mapAddr, id);
    NamesPut(s.mapInfo, s.vvTried, t, id);
    NamesUpdate(s.mapInfo, s.vvTried[t := id], id, x);
    NamesUpdate(s.mapInfo, s.vvNew, id, x);
  }

  lemma ViewTouch(s: State, id: nat, p: Peer)
    requires Viewable(s) && id in s.mapInfo && p.svc == s.mapInfo[id].peer.svc
    ensures Viewable(Touch(s, id, p))
    ensures View(Touch(s, id, p)) == View(s).(peers := View(s).peers[p.svc.ip := p])
  {
    hide AddrIndex, Peers, Names;
    var x := s.mapInfo[id].(peer := p);
    PeersUpdate(s.mapInfo, s.mapAddr, id, x);
    NamesUpdate(s.mapInfo, s.vvTried, id, x);
    NamesUpdate(s.mapInfo, s.vvNew, id, x);
  }

  lemma ViewClosed(s: State)
    requires Viewable(s)
    ensures Closed(View(s))
  {
    var b := View(s);
    forall t | t in b.newSlots ensures b.newSlots[t] in b.peers {
      assert Known(s.mapInfo, s.vvNew[t]);
      PeerIn(s.mapInfo, s.mapAddr, s.vvNew[t]);
    }
    forall t | t in b.triedSlots ensures b.triedSlots[t] in b.peers {
      assert Known(s.mapInfo, s.vvTried[t]);
      PeerIn(s.mapInfo, s.mapAddr, s.vvTried[t]);
    }
  }

  lemma NameAt(info: map<nat, Info>, table: map<Slot, nat>, t: Slot)
    requires AllKnown(info, table)
    ensures t in Names(info, table) <==> t in table
    ensures t in table ==> table[t] in info && Names(info, table)[t] == info[table[t]].peer.svc.ip
  {
    if t in table { assert Known(info, table[t]); }
  }

  /** Evicting from the tried table, seen in the book. */
  lemma ViewEvict(k: Hashing, s: State, t: Slot, limbo: set<nat>)
    requires Inv(k, s, limbo, 0) && t in s.vvTried
    ensures Viewable(s) && Closed(View(s)) && t in View(s).triedSlots
    ensures Viewable(Evict(k, s, t, limbo))
    ensures var a := View(s).triedSlots[t];
            var u := k.NewSlot(View(s).peers[a].svc, View(s).peers[a].source);
            var b := Release(View(s), u);
            View(Evict(k, s, t, limbo)) == b.(newSlots := b.newSlots[u := a], triedSlots := b.triedSlots - {t})
  {
    hide AddrIndex, RandomIndex, TriedPlaced, NewPlaced, Counted, Tallied, Peers, Names, Readmit, SlotsOf;
    InvViewable(k, s, limbo, 0);
    ViewClosed(s);
    UnsetTriedKeeps(k, s, t, limbo, 0);
    var id := s.vvTried[t];
    NameAt(s.mapInfo, s.vvTried, t);
    PeerIn(s.mapInfo, s.mapAddr, id);
    ViewUnset(s, t);
    ViewReadmit(k, UnsetTried(s, t), id, limbo + {id});
  }

  /** Moving an entry to the tried table is Promote on the book. */
  lemma ViewMakeTried(k: Hashing, s: State, id: nat)
    requires Inv(k, s, {}, 0) && id in s.mapInfo && !s.mapInfo[id].fInTried
    ensures Viewable(s) && Closed(View(s)) && s.mapInfo[id].peer.svc.ip in View(s).peers
    ensures Viewable(MakeTried(k, s, id))
    ensures View(MakeTried(k, s, id)) == Promote(k, View(s), s.mapInfo[id].peer.svc.ip)
  {
    hide AddrIndex, RandomIndex, TriedPlaced, NewPlaced, Counted, Tallied, Peers, Names, Evict, SlotsOf, Release;
    InvViewable(k, s, {}, 0);
    ViewClosed(s);
    PeerIn(s.mapInfo, s.mapAddr, id);
    UnplaceKeeps(k, s, id);
    ViewUnplace(s, id);
    var s1 := Unplace(s, id);
    var t := k.TriedSlot(s.mapInfo[id].peer.svc);
    NameAt(s1.mapInfo, s1.vvTried, t);
    if t in s1.vvTried {
      EvictKeeps(k, s1, t, {id});
      ViewEvict(k, s1, t, {id});
      ViewSet(Evict(k, s1, t, {id}), t, id);
    } else {
      ViewSet(s1, t, id);
    }
  }

  /** An entry is tried exactly when its address has a slot in the tried table. */
  lemma TriedInBook(k: Hashing, s: State, id: nat)
    requires TriedPlaced(k, s.mapInfo, s.vvTried) && Viewable(s) && id in s.mapInfo
    ensures s.mapInfo[id].fInTried <==> SlotsOf(View(s).triedSlots, s.mapInfo[id].peer.svc.ip) != {}
  {
    hide RandomIndex, Peers;
    SlotsOfName(s.mapInfo, s.mapAddr, s.vvTried, id);
    if s.mapInfo[id].fInTried {
      assert k.TriedSlot(s.mapInfo[id].peer.svc) in SlotsOf(s.vvTried, id);
    } else {
      NoTriedSlots(k, s.mapInfo, s.vvTried, id);
    }
  }

  lemma PeersKnow(s: State, a: NetAddr)
    requires Viewable(s)
    ensures a in View(s).peers <==> a in s.mapAddr
    ensures a in s.mapAddr ==> s.mapAddr[a] in s.mapInfo && View(s).peers[a] == s.mapInfo[s.mapAddr[a]].peer
    ensures a in s.mapAddr ==> s.mapInfo[s.mapAddr[a]].peer.svc.ip == a
  {
    if a in s.mapAddr { assert HasAddr(s.mapInfo, s.mapAddr[a], a); }
  }

  /** Good on the tables is Good on the book. */
  lemma ViewGood(k: Hashing, s: State, svc: Service, nTime: int)
    requires Inv(k, s, {}, 0)
    ensures Viewable(s) && Closed(View(s))
    ensures Viewable(AddrTables.Good(k, s, svc, nTime))
    ensures View(AddrTables.Good(k, s, svc, nTime)) == Good(k, View(s), svc, nTime)
  {
    hide AddrIndex, RandomIndex, TriedPlaced, NewPlaced, Counted, Tallied, Peers, Names, MakeTried, SlotsOf,
         Promote;
    InvViewable(k, s, {}, 0);
    ViewClosed(s);
    PeersKnow(s, svc.ip);
    GoodTimeKeeps(k, s, nTime);
    var s0 := s.(nLastGood := nTime);
    if svc.ip in s.mapAddr && s.mapInfo[s.mapAddr[svc.ip]].peer.svc == svc {
      var id := s.mapAddr[svc.ip];
      var p := s.mapInfo[id].peer.(nLastSuccess := nTime, nLastTry := nTime, nAttempts := 0);
      TouchKeeps(k, s0, id, p, {}, 0);
      ViewTouch(s0, id, p);
      TriedInBook(k, s, id);
      if !s.mapInfo[id].fInTried { ViewMakeTried(k, Touch(s0, id, p), id); }
    }
  }

  lemma DistinctAddrs(info: map<nat, Info>, addr: map<NetAddr, nat>, id: nat, other: nat)
    requires AddrIndex(info, addr) && id in info && other in info
    ensures id == other <==> info[id].peer.svc.ip == info[other].peer.svc.ip
  {
  }

  lemma ViewPlace(k: Hashing, s: State, id: nat, source: NetAddr, now: int, limbo: set<nat>, owed: int)
    requires Inv(k, s, limbo, owed) && id in s.mapInfo && !s.mapInfo[id].fInTried
    requires (limbo == {} && owed == 0) || (limbo == {id} && owed == 1)
    ensures Viewable(s) && Closed(View(s)) && s.mapInfo[id].peer.svc.ip in View(s).peers
    ensures Viewable(AddrTables.Place(k, s, id, source, now))
    ensures View(AddrTables.Place(k, s, id, source, now)) == Place(k, View(s), s.mapInfo[id].peer.svc.ip, source, now)
  {
    hide AddrIndex, RandomIndex, TriedPlaced, NewPlaced, Counted, Tallied, Peers, Names, ClearNew, Delete,
         PutSlot, Release, SlotsOf;
    InvViewable(k, s, limbo, owed);
    ViewClosed(s);
    PeerIn(s.mapInfo, s.mapAddr, id);
    var t := k.NewSlot(s.mapInfo[id].peer.svc, source);
    NameAt(s.mapInfo, s.vvNew, t);
    if t !in s.vvNew {
      ViewPut(s, t, id);
    } else {
      var other := s.vvNew[t];
      PeerIn(s.mapInfo, s.mapAddr, other);
      DistinctAddrs(s.mapInfo, s.mapAddr, id, other);
      SlotsOfName(s.mapInfo, s.mapAddr, s.vvNew, id);
      SlotsOfName(s.mapInfo, s.mapAddr, s.vvNew, other);
      SlotCount(s.mapInfo, s.vvNew, limbo, id);
      SlotCount(s.mapInfo, s.vvNew, limbo, other);
      LimboIn(s, limbo);
      if limbo == {} { EntryBounds(s, id); }
      if other != id {
        if s.mapInfo[other].peer.IsTerrible(now) || (s.mapInfo[other].nRefCount > 1 && s.mapInfo[id].nRefCount == 0) {
          ViewClear(k, s, t, limbo, owed);
          ClearNewOthers(s, t);
          ViewPut(ClearNew(s, t), t, id);
        } else if s.mapInfo[id].nRefCount == 0 {
          ViewDelete(k, s, id, limbo, owed);
        }
      }
    }
  }

  lemma PeersAppend(info: map<nat, Info>, addr: map<NetAddr, nat>, id: nat, x: Info)
    requires AddrIndex(info, addr) && id !in info && x.peer.svc.ip !in addr
    ensures AddrIndex(info[id := x], addr[x.peer.svc.ip := id])
    ensures Peers(info[id := x], addr[x.peer.svc.ip := id]) == Peers(info, addr)[x.peer.svc.ip := x.peer]
  {
    var info', addr' := info[id := x], addr[x.peer.svc.ip := id];
    assert AddrIndex(info', addr');
    forall a | a in addr'
      ensures PeerAt(info', addr'[a]) == if a == x.peer.svc.ip then x.peer else PeerAt(info, addr[a])
    {
      assert a in addr ==> HasAddr(info, addr[a], a);
    }
  }

  lemma NamesAppend(info: map<nat, Info>, table: map<Slot, nat>, id: nat, x: Info)
    requires AllKnown(info, table) && id !in info
    ensures AllKnown(info[id := x], table)
    ensures Names(info[id := x], table) == Names(info, table)
  {
    var info' := info[id := x];
    forall t | t in table ensures Known(info', table[t]) {
      assert Known(info, table[t]);
    }
  }

  lemma ViewCreate(s: State, addr: Address, source: NetAddr)
    requires Viewable(s) && Indexed(s) && addr.svc.ip !in s.mapAddr
    ensures Viewable(Create(s, addr, source))
    ensures var p := Peer(addr.svc, addr.nServices, addr.nTime, source, 0, 0, 0, 0);
            View(Create(s, addr, source)) == View(s).(peers := View(s).peers[addr.svc.ip := p])
  {
    hide AddrIndex, RandomIndex, Peers, Names;
    var x := Info(Peer(addr.svc, addr.nServices, addr.nTime, source, 0, 0, 0, 0), 0, false, |s.vRandom|);
    assert s.nIdCount !in s.mapInfo;
    PeersAppend(s.mapInfo, s.mapAddr, s.nIdCount, x);
    NamesAppend(s.mapInfo, s.vvNew, s.nIdCount, x);
    NamesAppend(s.mapInfo, s.vvTried, s.nIdCount, x);
  }

  lemma ViewAddKnown(k: Hashing, s: State, id: nat, addr: Address, source: NetAddr, penalty: int, now: int, roll: nat)
    requires Inv(k, s, {}, 0) && id in s.mapInfo && s.mapInfo[id].peer.svc.ip == addr.svc.ip
    ensures Viewable(s) && Closed(View(s)) && addr.svc.ip in View(s).peers
    ensures Viewable(AddKnown(k, s, id, addr, source, penalty, now, roll))
    ensures View(AddKnown(k, s, id, addr, source, penalty, now, roll)) ==
              Add(k, View(s), addr, source, penalty, now, roll)
  {
    hide AddrIndex, RandomIndex, TriedPlaced, NewPlaced, Counted, Tallied, Peers, Names, AddrTables.Place,
         Place, SlotsOf;
    InvViewable(k, s, {}, 0);
    ViewClosed(s);
    PeerIn(s.mapInfo, s.mapAddr, id);
    RefreshKeeps(k, s, id, addr, penalty, now);
    var p := Refreshed(s.mapInfo[id].peer, addr, penalty, now);
    var s1 := Touch(s, id, p);
    ViewTouch(s, id, p);
    TriedInBook(k, s, id);
    SlotsOfName(s.mapInfo, s.mapAddr, s.vvNew, id);
    SlotCount(s.mapInfo, s.vvNew, {}, id);
    if !s1.mapInfo[id].fInTried {
      EntryBounds(s, id);
      if !Declined(s1.mapInfo[id], addr, roll) { ViewPlace(k, s1, id, source, now, {}, 0); }
    }
  }

  lemma ViewAddFresh(k: Hashing, s: State, addr: Address, source: NetAddr, penalty: int, now: int, roll: nat)
    requires Inv(k, s, {}, 0) && addr.svc.ip !in s.mapAddr
    ensures Viewable(s) && Closed(View(s)) && addr.svc.ip !in View(s).peers
    ensures Viewable(AddFresh(k, s, addr, source, penalty, now))
    ensures View(AddFresh(k, s, addr, source, penalty, now)) == Add(k, View(s), addr, source, penalty, now, roll)
  {
    hide AddrIndex, RandomIndex, TriedPlaced, NewPlaced, Counted, Tallied, Peers, Names, AddrTables.Place,
         Place, SlotsOf;
    InvViewable(k, s, {}, 0);
    ViewClosed(s);
    PeersKnow(s, addr.svc.ip);
    var a := addr.(nTime := Stamp(addr.nTime - penalty));
    FreshKeeps(k, s, a, source);
    ViewCreate(s, a, source);
    var s1 := Create(s, a, source);
    ViewPlace(k, s1.(nNew := s1.nNew + 1), s.nIdCount, source, now, {s.nIdCount}, 1);
  }

  /** Add on the tables is Add on the book. */
  lemma ViewAdd(k: Hashing, s: State, addr: Address, source: NetAddr, penalty: int, now: int, roll: nat)
    requires Inv(k, s, {}, 0)
    ensures Viewable(s) && Closed(View(s))
    ensures Viewable(AddrTables.Add(k, s, addr, source, penalty, now, roll))
    ensures View(AddrTables.Add(k, s, addr, source, penalty, now, roll)) ==
              Add(k, View(s), addr, source, penalty, now, roll)
  {
    hide Indexed, Viewable, TriedPlaced, NewPlaced, Counted, Tallied, AddKnown, AddFresh, View, Add, Closed;
    if addr.svc.ip in s.mapAddr {
      Lookup(s, addr.svc.ip);
      ViewAddKnown(k, s, s.mapAddr[addr.svc.ip], addr, source, penalty, now, roll);
    } else {
      ViewAddFresh(k, s, addr, source, penalty, now, roll);
    }
  }

  // ----- What a consistent manager promises about its book -----

  /** Every known address is in its own tried slot and nowhere else, or in one to eight new slots of its own. */
  ghost predicate WellPlaced(k: Hashing, b: Book, a: NetAddr)
    requires a in b.peers
  {
    || (SlotsOf(b.triedSlots, a) == {k.TriedSlot(b.peers[a].svc)} && SlotsOf(b.newSlots, a) == {})
    || (SlotsOf(b.triedSlots, a) == {}
        && 1 <= |SlotsOf(b.newSlots, a)| <= NEW_BUCKETS_PER_ADDRESS
        && forall t :: t in SlotsOf(b.newSlots, a) ==>
             t.0 < NEW_BUCKET_COUNT && t.1 == k.Position(b.peers[a].svc, true, t.0))
  }

  lemma ConsistentBook(k: Hashing, s: State, a: NetAddr)
    requires Inv(k, s, {}, 0) && Viewable(s) && a in View(s).peers
    ensures WellPlaced(k, View(s), a)
    ensures View(s).peers[a].svc.ip == a
  {
    hide AddrIndex, RandomIndex, Tallied, Peers, Names, Counted;
    PeersKnow(s, a);
    var id := s.mapAddr[a];
    SlotsOfName(s.mapInfo, s.mapAddr, s.vvNew, id);
    SlotsOfName(s.mapInfo, s.mapAddr, s.vvTried, id);
    if s.mapInfo[id].fInTried {
      NoSlots(k, s.mapInfo, s.vvNew, id);
      forall t | t in SlotsOf(s.vvTried, id) ensures t == k.TriedSlot(s.mapInfo[id].peer.svc) {
        assert OwnsTried(k, s.mapInfo, s.vvTried[t], t);
      }
      assert k.TriedSlot(s.mapInfo[id].peer.svc) in SlotsOf(s.vvTried, id);
    } else {
      NoTriedSlots(k, s.mapInfo, s.vvTried, id);
      EntryBounds(s, id);
      SlotCount(s.mapInfo, s.vvNew, {}, id);
      forall t | t in SlotsOf(s.vvNew, id) ensures OwnsNew(k, s.mapInfo, id, t) {
        assert OwnsNew(k, s.mapInfo, s.vvNew[t], t);
      }
    }
  }
}
