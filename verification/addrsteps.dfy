/** The operations of the address manager as steps between its tables, and what they do to the times
  * that the source's own check looks at.
  */
module AddrSteps {
  import opened AddrTables
  import AddrBook

  datatype Op =
    | Add(addr: Address, source: NetAddr, penalty: int, now: int, roll: nat)
    | Good(svc: Service, nTime: int)
    | Attempt(svc: Service, fCountFailure: bool, nTime: int)
    | Connected(svc: Service, nTime: int)
    | SetServices(svc: Service, nServices: bv64)
    | Shuffle(i: nat, j: nat)

  /** A shuffle swaps existing positions; everything else may happen at any time. */
  ghost predicate Permitted(op: Op, s: State) {
    op.Shuffle? ==> op.i < |s.vRandom| && op.j < |s.vRandom|
  }

  /** A connection attempt; a failure counts once per good connection made elsewhere. */
  function Attempted(p: Peer, fCountFailure: bool, nTime: int, nLastGood: int): Peer {
    if fCountFailure && p.nLastCountAttempt < nLastGood
    then p.(nLastTry := nTime, nLastCountAttempt := nTime, nAttempts := p.nAttempts + 1)
    else p.(nLastTry := nTime)
  }

  function Seen(p: Peer, nTime: int): Peer {
    if nTime - p.nTime > 20 * 60 then p.(nTime := Stamp(nTime)) else p
  }

  /** The address of the service is known under its port. */
  ghost predicate KnownAs(s: State, svc: Service) {
    svc.ip in s.mapAddr && s.mapAddr[svc.ip] in s.mapInfo && s.mapInfo[s.mapAddr[svc.ip]].peer.svc == svc
  }

  /** Change what is known about a service, if it is known under that port. */
  ghost function Revise(s: State, svc: Service, f: Peer -> Peer): State {
    if KnownAs(s, svc) then Touch(s, s.mapAddr[svc.ip], f(s.mapInfo[s.mapAddr[svc.ip]].peer)) else s
  }

  ghost function Step(k: Hashing, s: State, op: Op): State
    requires Inv(k, s, {}, 0) && Permitted(op, s)
  {
    match op
    case Add(addr, source, penalty, now, roll) => AddrTables.Add(k, s, addr, source, penalty, now, roll)
    case Good(svc, nTime) => AddrTables.Good(k, s, svc, nTime)
    case Attempt(svc, fCountFailure, nTime) => Revise(s, svc, p => Attempted(p, fCountFailure, nTime, s.nLastGood))
    case Connected(svc, nTime) => Revise(s, svc, p => Seen(p, nTime))
    case SetServices(svc, nServices) => Revise(s, svc, (p: Peer) => p.(nServices := nServices))
    case Shuffle(i, j) => Swap(s, i, j)
  }

  /** The steps lead from s to r. */
  ghost predicate Leads(k: Hashing, s: State, ops: seq<Op>, r: State)
    decreases |ops|
  {
    if ops == [] then r == s
    else
      var init, last := ops[..|ops| - 1], ops[|ops| - 1];
      exists m :: Leads(k, s, init, m) && Follows(k, m, last, r)
  }

  /** From consistent tables, the step leads to r. */
  ghost predicate Follows(k: Hashing, s: State, op: Op, r: State) {
    Inv(k, s, {}, 0) ==> Permitted(op, s) && r == Step(k, s, op)
  }

  lemma LeadsNone(k: Hashing, s: State)
    ensures Leads(k, s, [], s)
  {
  }

  lemma LeadsOn(k: Hashing, s: State, ops: seq<Op>, m: State, op: Op)
    requires Leads(k, s, ops, m) && Inv(k, m, {}, 0) && Permitted(op, m)
    ensures Leads(k, s, ops + [op], Step(k, m, op))
  {
    hide Inv, Step;
    assert (ops + [op])[..|ops|] == ops;
    assert Follows(k, m, op, Step(k, m, op));
  }

  // ----- Consistency -----

  lemma ReviseKeeps(k: Hashing, s: State, svc: Service, f: Peer -> Peer)
    requires Inv(k, s, {}, 0) && forall p: Peer :: f(p).svc == p.svc
    ensures Inv(k, Revise(s, svc, f), {}, 0)
  {
    hide Indexed, TriedPlaced, NewPlaced, Counted, Tallied;
    if KnownAs(s, svc) {
      var id := s.mapAddr[svc.ip];
      TouchKeeps(k, s, id, f(s.mapInfo[id].peer), {}, 0);
    }
  }

  /** Every step keeps the tables consistent, whatever times it is given. */
  lemma StepKeeps(k: Hashing, s: State, op: Op)
    requires Inv(k, s, {}, 0) && Permitted(op, s)
    ensures Inv(k, Step(k, s, op), {}, 0)
  {
    hide Inv, Revise, AddrTables.Add, AddrTables.Good, Swap;
    match op
    case Add(addr, source, penalty, now, roll) => AddKeeps(k, s, addr, source, penalty, now, roll);
    case Good(svc, nTime) => GoodKeeps(k, s, svc, nTime);
    case Attempt(svc, fCountFailure, nTime) =>
      ReviseKeeps(k, s, svc, p => Attempted(p, fCountFailure, nTime, s.nLastGood));
    case Connected(svc, nTime) => ReviseKeeps(k, s, svc, p => Seen(p, nTime));
    case SetServices(svc, nServices) => ReviseKeeps(k, s, svc, (p: Peer) => p.(nServices := nServices));
    case Shuffle(i, j) => SwapKeeps(k, s, i, j, {}, 0);
  }

  // ----- Times -----

  /** What Timed asks of every peer of the book. */
  ghost predicate Dated(b: AddrBook.Book) {
    forall a :: a in b.peers ==> DatedAt(b, a)
  }

  ghost predicate DatedAt(b: AddrBook.Book, a: NetAddr)
    requires a in b.peers
  {
    PeerTimed(b.peers[a], SlotsOf(b.triedSlots, a) != {})
  }

  lemma DatedExact(k: Hashing, s: State)
    requires Inv(k, s, {}, 0)
    ensures AddrBook.Viewable(s) && AddrBook.Closed(AddrBook.View(s))
    ensures Timed(s.mapInfo) <==> Dated(AddrBook.View(s))
  {
    hide RandomIndex, TriedPlaced, NewPlaced, Counted, Tallied, AddrBook.View, PeerTimed;
    AddrBook.InvViewable(k, s, {}, 0);
    AddrBook.ViewClosed(s);
    forall id | id in s.mapInfo
      ensures var a := s.mapInfo[id].peer.svc.ip;
              && a in AddrBook.View(s).peers
              && (DatedAt(AddrBook.View(s), a) <==> PeerTimed(s.mapInfo[id].peer, s.mapInfo[id].fInTried))
    {
      AddrBook.PeersKnow(s, s.mapInfo[id].peer.svc.ip);
      AddrBook.TriedInBook(k, s, id);
    }
    forall a | a in AddrBook.View(s).peers ensures a in s.mapAddr && HasAddr(s.mapInfo, s.mapAddr[a], a) {
      AddrBook.PeersKnow(s, a);
    }
  }

  /** The address is known under this port. */
  ghost predicate KnowsService(b: AddrBook.Book, svc: Service) {
    svc.ip in b.peers && b.peers[svc.ip].svc == svc
  }

  lemma ReleaseDated(b: AddrBook.Book, t: Slot, a: NetAddr)
    requires a in b.peers && (t in b.newSlots ==> b.newSlots[t] != a)
    ensures a in AddrBook.Release(b, t).peers
    ensures AddrBook.Release(b, t).triedSlots == b.triedSlots
    ensures forall x :: x in AddrBook.Release(b, t).peers ==>
              x in b.peers && AddrBook.Release(b, t).peers[x] == b.peers[x]
  {
  }

  /** A promoted address has a tried slot, and no other address gets one. */
  lemma PromoteDated(k: Hashing, b: AddrBook.Book, a: NetAddr)
    requires a in b.peers && AddrBook.Closed(b) && SlotsOf(b.triedSlots, a) == {}
    ensures var r := AddrBook.Promote(k, b, a);
            && a in r.peers && SlotsOf(r.triedSlots, a) != {}
            && (forall x :: x in r.peers ==> x in b.peers && r.peers[x] == b.peers[x])
            && (forall x :: x != a ==> SlotsOf(r.triedSlots, x) <= SlotsOf(b.triedSlots, x))
  {
    hide AddrBook.Release;
    var t := k.TriedSlot(b.peers[a].svc);
    var r := AddrBook.Promote(k, b, a);
    var b1 := b.(newSlots := b.newSlots - SlotsOf(b.newSlots, a));
    if t in b.triedSlots {
      var evicted := b.triedSlots[t];
      var u := k.NewSlot(b.peers[evicted].svc, b.peers[evicted].source);
      assert u in b1.newSlots ==> u !in SlotsOf(b.newSlots, a);
      ReleaseDated(b1, u, a);
    }
    assert r.triedSlots == b.triedSlots[t := a];
    assert t in SlotsOf(r.triedSlots, a);
  }

  /** After a success the times are in order exactly when it has a positive time or is of nobody known. */
  lemma GoodDated(k: Hashing, b: AddrBook.Book, svc: Service, nTime: int)
    requires AddrBook.Closed(b) && Dated(b)
    ensures Dated(AddrBook.Good(k, b, svc, nTime)) <==> !KnowsService(b, svc) || nTime > 0
  {
    hide AddrBook.Promote;
    if KnowsService(b, svc) {
      var a := svc.ip;
      var p := b.peers[a].(nLastSuccess := nTime, nLastTry := nTime, nAttempts := 0);
      var b1 := b.(peers := b.peers[a := p]);
      var r := AddrBook.Good(k, b, svc, nTime);
      if SlotsOf(b.triedSlots, a) == {} { PromoteDated(k, b1, a); }
      assert a in r.peers && (DatedAt(r, a) <==> nTime > 0);
      forall x | x in r.peers && x != a ensures DatedAt(r, x) { assert DatedAt(b, x); }
    }
  }

  /** An announcement leaves the times in order. */
  lemma PlaceDated(k: Hashing, b: AddrBook.Book, a: NetAddr, source: NetAddr, now: int)
    requires a in b.peers && AddrBook.Closed(b) && Dated(b)
    ensures Dated(AddrBook.Place(k, b, a, source, now))
  {
    var r := AddrBook.Place(k, b, a, source, now);
    forall x | x in r.peers ensures DatedAt(r, x) { assert DatedAt(b, x); }
  }

  lemma AddDated(k: Hashing, b: AddrBook.Book, addr: Address, source: NetAddr, penalty: int, now: int, roll: nat)
    requires AddrBook.Closed(b) && Dated(b)
    ensures Dated(AddrBook.Add(k, b, addr, source, penalty, now, roll))
  {
    hide AddrBook.Place, Dated, DatedAt, AddrTables.Refreshed, AddrBook.Closed, PeerTimed;
    var a := addr.svc.ip;
    var p := if a in b.peers then AddrTables.Refreshed(b.peers[a], addr, penalty, now)
             else Peer(addr.svc, addr.nServices, Stamp(addr.nTime - penalty), source, 0, 0, 0, 0);
    if a in b.peers { RefreshedDated(b, a, addr, penalty, now); } else { FreshDated(b, a, p); }
    DatedPut(b, a, p);
    PlaceDated(k, b.(peers := b.peers[a := p]), a, source, now);
  }

  lemma RefreshedDated(b: AddrBook.Book, a: NetAddr, addr: Address, penalty: int, now: int)
    requires Dated(b) && a in b.peers
    ensures PeerTimed(AddrTables.Refreshed(b.peers[a], addr, penalty, now), SlotsOf(b.triedSlots, a) != {})
  {
    assert DatedAt(b, a);
  }

  lemma FreshDated(b: AddrBook.Book, a: NetAddr, p: Peer)
    requires AddrBook.Closed(b) && a !in b.peers && p.nLastTry == p.nLastSuccess == 0
    ensures PeerTimed(p, SlotsOf(b.triedSlots, a) != {})
  {
    assert SlotsOf(b.triedSlots, a) == {};
  }

  lemma DatedPut(b: AddrBook.Book, a: NetAddr, p: Peer)
    requires AddrBook.Closed(b) && Dated(b) && PeerTimed(p, SlotsOf(b.triedSlots, a) != {})
    ensures var b1 := b.(peers := b.peers[a := p]); AddrBook.Closed(b1) && Dated(b1)
  {
    hide PeerTimed;
    var b1 := b.(peers := b.peers[a := p]);
    forall x | x in b1.peers ensures DatedAt(b1, x) { assert x != a ==> DatedAt(b, x); }
  }

  /** A success has a positive time and an attempt one that is not negative, if they are of somebody known. */
  ghost predicate Fair(s: State, op: Op) {
    match op
    case Good(svc, nTime) => KnownAs(s, svc) ==> nTime > 0
    case Attempt(svc, _, nTime) => KnownAs(s, svc) ==> nTime >= 0
    case _ => true
  }

  lemma ReviseTimed(s: State, svc: Service, f: Peer -> Peer)
    requires Timed(s.mapInfo)
    ensures Timed(Revise(s, svc, f).mapInfo) <==>
              (KnownAs(s, svc) ==>
                 var x := s.mapInfo[s.mapAddr[svc.ip]]; PeerTimed(f(x.peer), x.fInTried))
  {
    if KnownAs(s, svc) {
      var id := s.mapAddr[svc.ip];
      var r := Revise(s, svc, f);
      assert r.mapInfo[id].peer == f(s.mapInfo[id].peer);
      forall x | x in r.mapInfo && x != id ensures PeerTimed(r.mapInfo[x].peer, r.mapInfo[x].fInTried) {
        assert r.mapInfo[x] == s.mapInfo[x];
      }
    }
  }

  lemma KnownInBook(s: State, svc: Service)
    requires AddrBook.Viewable(s)
    ensures KnownAs(s, svc) <==> KnowsService(AddrBook.View(s), svc)
  {
    hide AddrBook.View;
    AddrBook.PeersKnow(s, svc.ip);
  }

  /** From tables with times in order, a step keeps them so exactly when it is fair. */
  lemma StepTimed(k: Hashing, s: State, op: Op)
    requires Inv(k, s, {}, 0) && Permitted(op, s) && Timed(s.mapInfo)
    ensures Timed(Step(k, s, op).mapInfo) <==> Fair(s, op)
  {
    hide Indexed, TriedPlaced, NewPlaced, Counted, Tallied, Timed, Revise, AddrTables.Add, AddrTables.Good, Swap, Dated,
         AddrBook.View, AddrBook.Good, AddrBook.Add, AddrBook.Closed, AddrBook.Viewable, KnownAs, KnowsService;
    StepKeeps(k, s, op);
    DatedExact(k, s);
    DatedExact(k, Step(k, s, op));
    match op
    case Add(addr, source, penalty, now, roll) =>
      AddrBook.ViewAdd(k, s, addr, source, penalty, now, roll);
      AddDated(k, AddrBook.View(s), addr, source, penalty, now, roll);
    case Good(svc, nTime) =>
      AddrBook.ViewGood(k, s, svc, nTime);
      GoodDated(k, AddrBook.View(s), svc, nTime);
      KnownInBook(s, svc);
    case Attempt(svc, fCountFailure, nTime) =>
      ReviseTimed(s, svc, p => Attempted(p, fCountFailure, nTime, s.nLastGood));
      KnownTimed(s, svc);
    case Connected(svc, nTime) =>
      ReviseTimed(s, svc, p => Seen(p, nTime));
      KnownTimed(s, svc);
    case SetServices(svc, nServices) =>
      ReviseTimed(s, svc, (p: Peer) => p.(nServices := nServices));
      KnownTimed(s, svc);
    case Shuffle(i, j) =>
      SwapTimed(s, i, j);
  }

  lemma KnownTimed(s: State, svc: Service)
    requires Timed(s.mapInfo)
    ensures KnownAs(s, svc) ==>
              && svc.ip in s.mapAddr && s.mapAddr[svc.ip] in s.mapInfo
              && var x := s.mapInfo[s.mapAddr[svc.ip]]; PeerTimed(x.peer, x.fInTried)
  {
  }

  lemma SwapTimed(s: State, i: nat, j: nat)
    requires i < |s.vRandom| && j < |s.vRandom| && Indexed(s) && Timed(s.mapInfo)
    ensures Timed(Swap(s, i, j).mapInfo)
  {
    hide AddrIndex, RandomIndex, Swap;
    SwapIndexed(s, i, j);
  }
}
