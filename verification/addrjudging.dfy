/** Which peers the address manager gives up on, and what its operations do to that judgement
  * (src/addrman.cpp:33-51, 197-337, 485-503).
  */
module AddrJudging {
  import opened AddrTables
  import AddrBook
  import opened AddrSteps

  // ----- What makes a peer terrible -----

  /** Seen within thirty days, and not more than ten minutes from now. */
  ghost predicate GoodStamp(p: Peer, now: int) {
    p.nTime > 0 && now - 2592000 <= p.nTime <= now + 600
  }

  ghost predicate TriedLately(p: Peer, now: int) {
    p.nLastTry != 0 && now <= p.nLastTry + 60
  }

  /** A peer tried within the last minute is kept, whatever else is known of it. */
  lemma TriedIsKept(p: Peer, now: int)
    requires TriedLately(p, now)
    ensures !p.IsTerrible(now)
  {
  }

  /** A peer that answered within a week and has a good stamp is kept. */
  lemma AnsweredIsKept(p: Peer, now: int)
    requires p.nLastSuccess != 0 && now <= p.nLastSuccess + 604800 && GoodStamp(p, now)
    ensures !p.IsTerrible(now)
  {
  }

  /** A peer without a good stamp is not, unless it was tried within the last minute. */
  lemma BadStamp(p: Peer, now: int)
    requires !GoodStamp(p, now)
    ensures p.IsTerrible(now) <==> !TriedLately(p, now)
  {
  }

  /** With a good stamp and no try within the last minute, failures decide: three for a peer that never answered,
    * ten for one that did not for a week.
    */
  lemma FailuresDecide(p: Peer, now: int)
    requires GoodStamp(p, now) && !TriedLately(p, now)
    ensures p.nLastSuccess == 0 ==> (p.IsTerrible(now) <==> p.nAttempts >= 3)
    ensures p.nLastSuccess != 0 && now > p.nLastSuccess + 604800 ==> (p.IsTerrible(now) <==> p.nAttempts >= 10)
  {
  }

  /** More failures never make a terrible peer acceptable. */
  lemma MoreFailures(p: Peer, more: nat, now: int)
    requires p.IsTerrible(now) && more >= p.nAttempts
    ensures p.(nAttempts := more).IsTerrible(now)
  {
  }

  // ----- What attempts and answers do -----

  /** After an attempt the peer is not terrible for a minute. */
  lemma AttemptProtects(k: Hashing, s: State, svc: Service, fCountFailure: bool, nTime: int, now: int)
    requires Inv(k, s, {}, 0) && KnownAs(s, svc) && nTime > 0 && now <= nTime + 60
    ensures var r := Step(k, s, Attempt(svc, fCountFailure, nTime));
            && AddrBook.Viewable(r) && svc.ip in AddrBook.View(r).peers
            && !AddrBook.View(r).peers[svc.ip].IsTerrible(now)
  {
    hide Indexed, TriedPlaced, NewPlaced, Counted, Tallied;
    var p := Attempted(s.mapInfo[s.mapAddr[svc.ip]].peer, fCountFailure, nTime, s.nLastGood);
    AddrBook.InvViewable(k, s, {}, 0);
    AddrBook.ViewTouch(s, s.mapAddr[svc.ip], p);
    TriedIsKept(p, now);
  }

  /** After an answer the peer is in the tried table, has no failures, and is not terrible for a minute; nor for a week,
    * as long as its stamp is good.
    */
  lemma GoodProtects(k: Hashing, s: State, svc: Service, nTime: int, now: int)
    requires Inv(k, s, {}, 0) && KnownAs(s, svc) && nTime > 0
    ensures Inv(k, Step(k, s, Good(svc, nTime)), {}, 0) && AddrBook.Viewable(Step(k, s, Good(svc, nTime)))
    ensures var b := AddrBook.View(Step(k, s, Good(svc, nTime)));
            && svc.ip in b.peers && SlotsOf(b.triedSlots, svc.ip) != {} && b.peers[svc.ip].nAttempts == 0
            && (now <= nTime + 60 ==> !b.peers[svc.ip].IsTerrible(now))
            && (now <= nTime + 604800 && GoodStamp(b.peers[svc.ip], now) ==> !b.peers[svc.ip].IsTerrible(now))
  {
    hide Inv, AddrTables.Good, AddrBook.View, AddrBook.Promote, AddrBook.Viewable, AddrBook.Closed;
    StepKeeps(k, s, Good(svc, nTime));
    AddrBook.InvViewable(k, s, {}, 0);
    AddrBook.InvViewable(k, Step(k, s, Good(svc, nTime)), {}, 0);
    AddrBook.ViewClosed(s);
    AddrBook.ViewGood(k, s, svc, nTime);
    KnownInBook(s, svc);
    GoodInBook(k, AddrBook.View(s), svc, nTime);
    var p := AddrBook.View(Step(k, s, Good(svc, nTime))).peers[svc.ip];
    if now <= nTime + 60 { TriedIsKept(p, now); }
    if now <= nTime + 604800 && GoodStamp(p, now) { AnsweredIsKept(p, now); }
  }

  lemma GoodInBook(k: Hashing, b: AddrBook.Book, svc: Service, nTime: int)
    requires AddrBook.Closed(b) && KnowsService(b, svc)
    ensures var r := AddrBook.Good(k, b, svc, nTime);
            && svc.ip in r.peers && SlotsOf(r.triedSlots, svc.ip) != {}
            && r.peers[svc.ip].nAttempts == 0 && r.peers[svc.ip].nLastTry == r.peers[svc.ip].nLastSuccess == nTime
  {
    hide AddrBook.Promote;
    var p := b.peers[svc.ip].(nLastSuccess := nTime, nLastTry := nTime, nAttempts := 0);
    var b1 := b.(peers := b.peers[svc.ip := p]);
    assert AddrBook.Closed(b1);
    if SlotsOf(b.triedSlots, svc.ip) == {} { PromoteDated(k, b1, svc.ip); }
  }

  // ----- Counting failures -----

  /** A try at a peer, and whether its failure is to count. */
  datatype Try = Try(fCountFailure: bool, nTime: int)

  ghost function AttemptAll(p: Peer, tries: seq<Try>, nLastGood: int): Peer {
    if tries == [] then p
    else
      var last := tries[|tries| - 1];
      Attempted(AttemptAll(p, tries[..|tries| - 1], nLastGood), last.fCountFailure, last.nTime, nLastGood)
  }

  /** As long as nobody answers, a peer's failures count once, however often it is tried. */
  lemma {:induction false} CountedOnce(p: Peer, tries: seq<Try>, nLastGood: int)
    requires forall i :: 0 <= i < |tries| ==> tries[i].nTime >= nLastGood
    ensures var r := AttemptAll(p, tries, nLastGood);
            var counted := p.nLastCountAttempt < nLastGood && exists i :: 0 <= i < |tries| && tries[i].fCountFailure;
            && r.nAttempts == p.nAttempts + (if counted then 1 else 0)
            && (if counted then r.nLastCountAttempt >= nLastGood else r.nLastCountAttempt == p.nLastCountAttempt)
    decreases |tries|
  {
    if tries != [] { CountedOnce(p, tries[..|tries| - 1], nLastGood); }
  }

  /** Somebody answers at `good`, and then the peer is tried in vain at `tried`. */
  datatype Failure = Failure(good: int, tried: int)

  /** Each answer comes after the try before it, and each try not before the answer. */
  ghost predicate InTurn(from: int, failures: seq<Failure>) {
    forall i :: 0 <= i < |failures| ==> InTurnAt(from, failures, i)
  }

  ghost predicate InTurnAt(from: int, failures: seq<Failure>, i: nat)
    requires i < |failures|
  {
    (if i == 0 then from else failures[i - 1].tried) < failures[i].good <= failures[i].tried
  }

  lemma FewerInTurn(from: int, failures: seq<Failure>, n: nat)
    requires InTurn(from, failures) && n <= |failures|
    ensures InTurn(from, failures[..n])
  {
    forall i | 0 <= i < n ensures InTurnAt(from, failures[..n], i) { assert InTurnAt(from, failures, i); }
  }

  ghost function FailAll(p: Peer, failures: seq<Failure>): Peer {
    if failures == [] then p
    else
      var last := failures[|failures| - 1];
      Attempted(FailAll(p, failures[..|failures| - 1]), true, last.tried, last.good)
  }

  /** With an answer elsewhere in between, every failure counts. */
  lemma {:induction false} AllCounted(p: Peer, failures: seq<Failure>)
    requires InTurn(p.nLastCountAttempt, failures)
    ensures var r := FailAll(p, failures);
            && r.nAttempts == p.nAttempts + |failures|
            && r.nLastCountAttempt == (if failures == [] then p.nLastCountAttempt else failures[|failures| - 1].tried)
            && r == p.(nLastTry := r.nLastTry, nLastCountAttempt := r.nLastCountAttempt, nAttempts := r.nAttempts)
            && r.nLastTry == if failures == [] then p.nLastTry else failures[|failures| - 1].tried
    decreases |failures|
  {
    if failures != [] {
      var n := |failures| - 1;
      FewerInTurn(p.nLastCountAttempt, failures, n);
      assert InTurnAt(p.nLastCountAttempt, failures, n);
      AllCounted(p, failures[..n]);
    }
  }

  /** A new peer that never answers becomes terrible with its third failure, a minute later. */
  lemma ThirdFailure(p: Peer, failures: seq<Failure>, now: int)
    requires p.nLastSuccess == 0 && p.nAttempts == 0 && InTurn(p.nLastCountAttempt, failures) && failures != []
    requires GoodStamp(p, now) && failures[|failures| - 1].tried + 60 < now
    ensures FailAll(p, failures).IsTerrible(now) <==> |failures| >= 3
  {
    AllCounted(p, failures);
    FailuresDecide(FailAll(p, failures), now);
  }

  /** The same in the tables: a failure that counts raises the number by one, and the next does not count. */
  lemma FailureCounts(k: Hashing, s: State, svc: Service, nTime: int)
    requires Inv(k, s, {}, 0) && KnownAs(s, svc) && nTime >= s.nLastGood
    ensures var r := Step(k, s, Attempt(svc, true, nTime));
            && KnownAs(r, svc) && !CountsNow(r, svc)
            && Failures(r, svc) == Failures(s, svc) + (if CountsNow(s, svc) then 1 else 0)
            && LastCounted(r, svc) == if CountsNow(s, svc) then nTime else LastCounted(s, svc)
  {
    hide Indexed, TriedPlaced, NewPlaced, Counted, Tallied;
  }

  /** An answer elsewhere, if the peer survives it, makes its failures count again. */
  lemma AnswerElsewhere(k: Hashing, s: State, svc: Service, other: Service, nTime: int)
    requires Inv(k, s, {}, 0) && KnownAs(s, svc) && other.ip != svc.ip && nTime > LastCounted(s, svc)
    ensures var r := Step(k, s, Good(other, nTime));
            KnownAs(r, svc) ==> CountsNow(r, svc) && Failures(r, svc) == Failures(s, svc)
  {
    hide Inv, AddrTables.Good, AddrBook.View, AddrBook.Good, AddrBook.Viewable, AddrBook.Closed;
    var r := Step(k, s, Good(other, nTime));
    StepKeeps(k, s, Good(other, nTime));
    AddrBook.InvViewable(k, s, {}, 0);
    AddrBook.InvViewable(k, r, {}, 0);
    AddrBook.ViewGood(k, s, other, nTime);
    AddrBook.PeersKnow(s, svc.ip);
    AddrBook.PeersKnow(r, svc.ip);
    if KnownAs(r, svc) { OthersSame(k, AddrBook.View(s), other, nTime, svc.ip); }
    GoodTime(k, s, other, nTime);
  }

  lemma OthersSame(k: Hashing, b: AddrBook.Book, svc: Service, nTime: int, x: NetAddr)
    requires AddrBook.Closed(b) && x != svc.ip && x in AddrBook.Good(k, b, svc, nTime).peers
    ensures x in b.peers && AddrBook.Good(k, b, svc, nTime).peers[x] == b.peers[x]
  {
    hide AddrBook.Promote;
    if KnowsService(b, svc) {
      var p := b.peers[svc.ip].(nLastSuccess := nTime, nLastTry := nTime, nAttempts := 0);
      var b1 := b.(peers := b.peers[svc.ip := p]);
      assert AddrBook.Closed(b1);
      if SlotsOf(b.triedSlots, svc.ip) == {} { PromoteDated(k, b1, svc.ip); }
    }
  }

  lemma GoodTime(k: Hashing, s: State, svc: Service, nTime: int)
    requires Inv(k, s, {}, 0)
    ensures AddrTables.Good(k, s, svc, nTime).nLastGood == nTime
  {
    hide Indexed, TriedPlaced, NewPlaced, Counted, Tallied;
  }

  ghost function LastCounted(s: State, svc: Service): int
    requires KnownAs(s, svc)
  {
    s.mapInfo[s.mapAddr[svc.ip]].peer.nLastCountAttempt
  }

  ghost function Failures(s: State, svc: Service): nat
    requires KnownAs(s, svc)
  {
    s.mapInfo[s.mapAddr[svc.ip]].peer.nAttempts
  }

  /** A failure of the service would count. */
  ghost predicate CountsNow(s: State, svc: Service)
    requires KnownAs(s, svc)
  {
    s.mapInfo[s.mapAddr[svc.ip]].peer.nLastCountAttempt < s.nLastGood
  }

  // ----- Stamps -----

  /** An announcement brings the stamp up to it, but for an hour (a day, if it is older than a day) and the penalty; it
    * never sets a stamp back.
    */
  lemma RefreshLags(p: Peer, addr: Address, penalty: nat, now: int)
    requires addr.nTime < 0x1_0000_0000
    ensures var r := Refreshed(p, addr, penalty, now);
            var slack := penalty + if now < addr.nTime + 86400 then 3600 else 86400;
            && (addr.nTime != 0 ==> r.nTime + slack >= addr.nTime)
            && r.nTime >= p.nTime
            && (r.nTime != p.nTime ==> addr.nTime != 0 && (p.nTime == 0 || p.nTime + slack < addr.nTime))
            && r == p.(nTime := r.nTime, nServices := r.nServices)
  {
    var r := Refreshed(p, addr, penalty, now);
    assert r.nTime == p.nTime || r.nTime == Stamp(addr.nTime - penalty);
  }

  /** A connection brings the stamp up to twenty minutes, and never sets it back. */
  lemma SeenLags(p: Peer, nTime: int)
    requires nTime < 0x1_0000_0000
    ensures var r := Seen(p, nTime);
            && r.nTime + 1200 >= nTime && r.nTime >= p.nTime
            && (r.nTime != p.nTime ==> p.nTime + 1200 < nTime && r.nTime == nTime)
            && r == p.(nTime := r.nTime)
  {
  }

  // ----- What is forgotten -----

  /** Every peer has a place. */
  ghost predicate Housed(b: AddrBook.Book) {
    forall x :: x in b.peers ==> SlotsOf(b.newSlots, x) != {} || SlotsOf(b.triedSlots, x) != {}
  }

  /** An announcement makes the book forget nobody but a terrible peer in its last place. */
  lemma AddForgets(k: Hashing, b: AddrBook.Book, addr: Address, source: NetAddr, penalty: int, now: int, roll: nat,
                   x: NetAddr)
    requires AddrBook.Closed(b) && Housed(b) && x in b.peers
    requires x !in AddrBook.Add(k, b, addr, source, penalty, now, roll).peers
    ensures x != addr.svc.ip && b.peers[x].IsTerrible(now)
    ensures |SlotsOf(b.newSlots, x)| == 1
  {
    hide Refreshed, NoNews;
    var a := addr.svc.ip;
    assert a in b.peers ==> SlotsOf(b.newSlots, a) != {} || SlotsOf(b.triedSlots, a) != {};
  }

  /** With a free place an announcement takes it: if the address is new, or is untried, has fewer than eight places and
    * the draw is 0, and the announcement is newer than what is then known.
    */
  lemma AddPlaces(k: Hashing, b: AddrBook.Book, addr: Address, source: NetAddr, penalty: int, now: int, roll: nat)
    requires AddrBook.Closed(b)
    ensures var (a, r) := (addr.svc.ip, AddrBook.Add(k, b, addr, source, penalty, now, roll));
            var svc := if a in b.peers then b.peers[a].svc else addr.svc;
            var t := k.NewSlot(svc, source);
            t !in b.newSlots ==>
              (r.newSlots == (if Wanted(b, addr, penalty, now, roll) then b.newSlots[t := a] else b.newSlots))
  {
    hide AddrBook.Release, Refreshed;
    if addr.svc.ip in b.peers { SameService(b.peers[addr.svc.ip], addr, penalty, now); }
  }

  lemma SameService(p: Peer, addr: Address, penalty: int, now: int)
    ensures Refreshed(p, addr, penalty, now).svc == p.svc
  {
  }

  ghost predicate Wanted(b: AddrBook.Book, addr: Address, penalty: int, now: int, roll: nat) {
    var a := addr.svc.ip;
    a in b.peers ==>
      var stamp := Refreshed(b.peers[a], addr, penalty, now).nTime;
      && addr.nTime > 0 && (stamp == 0 || addr.nTime > stamp)
      && SlotsOf(b.triedSlots, a) == {} && |SlotsOf(b.newSlots, a)| != 8 && roll == 0
  }

  /** No address has places in both tables. */
  ghost predicate Apart(b: AddrBook.Book) {
    forall x :: SlotsOf(b.newSlots, x) == {} || SlotsOf(b.triedSlots, x) == {}
  }

  /** The book of consistent tables is like that. */
  lemma ViewHoused(k: Hashing, s: State)
    requires Inv(k, s, {}, 0)
    ensures AddrBook.Viewable(s) && Housed(AddrBook.View(s)) && Apart(AddrBook.View(s))
  {
    hide RandomIndex, Tallied, AddrBook.Viewable, AddrBook.View, TriedPlaced, NewPlaced, Counted, AddrIndex;
    AddrBook.InvViewable(k, s, {}, 0);
    AddrBook.ViewClosed(s);
    var b := AddrBook.View(s);
    forall x | x in b.peers ensures SlotsOf(b.newSlots, x) != {} || SlotsOf(b.triedSlots, x) != {} {
      AddrBook.PeersKnow(s, x);
      OneTable(k, s, s.mapAddr[x]);
    }
    forall x ensures SlotsOf(b.newSlots, x) == {} || SlotsOf(b.triedSlots, x) == {} {
      if x in b.peers {
        AddrBook.PeersKnow(s, x);
        OneTable(k, s, s.mapAddr[x]);
      }
    }
  }

  lemma OneTable(k: Hashing, s: State, id: nat)
    requires Inv(k, s, {}, 0) && AddrBook.Viewable(s) && id in s.mapInfo
    ensures var (b, x) := (AddrBook.View(s), s.mapInfo[id].peer.svc.ip);
            (SlotsOf(b.newSlots, x) == {}) != (SlotsOf(b.triedSlots, x) == {})
  {
    hide RandomIndex, Tallied, TriedPlaced, AddrIndex;
    AddrBook.TriedInBook(k, s, id);
    AddrBook.SlotsOfName(s.mapInfo, s.mapAddr, s.vvNew, id);
    if s.mapInfo[id].fInTried {
      forall t | t in s.vvNew ensures s.vvNew[t] != id { assert OwnsNew(k, s.mapInfo, s.vvNew[t], t); }
    }
  }

  lemma ReleaseForgets(b: AddrBook.Book, t: Slot, x: NetAddr)
    requires x in b.peers && x !in AddrBook.Release(b, t).peers
    ensures t in b.newSlots && b.newSlots[t] == x && |SlotsOf(b.newSlots, x)| == 1
  {
  }

  lemma PromoteForgets(k: Hashing, b: AddrBook.Book, a: NetAddr, x: NetAddr)
    requires a in b.peers && AddrBook.Closed(b) && x in b.peers && x !in AddrBook.Promote(k, b, a).peers
    ensures x != a && |SlotsOf(b.newSlots, x)| == 1 && k.TriedSlot(b.peers[a].svc) in b.triedSlots
  {
    hide AddrBook.Release;
    var b1 := b.(newSlots := b.newSlots - SlotsOf(b.newSlots, a));
    var evicted := b.triedSlots[k.TriedSlot(b.peers[a].svc)];
    ReleaseForgets(b1, k.NewSlot(b.peers[evicted].svc, b.peers[evicted].source), x);
    assert SlotsOf(b1.newSlots, x) == SlotsOf(b.newSlots, x);
  }

  /** An answer makes the book forget nobody that had answered before, and nobody with two places. */
  lemma GoodForgets(k: Hashing, b: AddrBook.Book, svc: Service, nTime: int, x: NetAddr)
    requires AddrBook.Closed(b) && Apart(b) && x in b.peers
    requires x !in AddrBook.Good(k, b, svc, nTime).peers
    ensures x != svc.ip && SlotsOf(b.triedSlots, x) == {} && |SlotsOf(b.newSlots, x)| == 1
    ensures KnowsService(b, svc) && k.TriedSlot(svc) in b.triedSlots
  {
    hide AddrBook.Promote;
    var p := b.peers[svc.ip].(nLastSuccess := nTime, nLastTry := nTime, nAttempts := 0);
    PromoteForgets(k, b.(peers := b.peers[svc.ip := p]), svc.ip, x);
  }

  /** Whoever is put out of the tried table by an answer goes back to the new one. */
  lemma GoodRehouses(k: Hashing, b: AddrBook.Book, svc: Service, nTime: int)
    requires AddrBook.Closed(b) && Apart(b) && KnowsService(b, svc) && SlotsOf(b.triedSlots, svc.ip) == {}
    requires k.TriedSlot(svc) in b.triedSlots
    ensures var (r, evicted) := (AddrBook.Good(k, b, svc, nTime), b.triedSlots[k.TriedSlot(svc)]);
            && evicted in r.peers && r.peers[evicted] == b.peers[evicted]
            && SlotsOf(r.newSlots, evicted) == {k.NewSlot(b.peers[evicted].svc, b.peers[evicted].source)}
            && SlotsOf(r.triedSlots, svc.ip) == {k.TriedSlot(svc)} && SlotsOf(r.newSlots, svc.ip) == {}
  {
    var (t, evicted) := (k.TriedSlot(svc), b.triedSlots[k.TriedSlot(svc)]);
    assert t in SlotsOf(b.triedSlots, evicted);
    assert SlotsOf(b.newSlots, evicted) == {};
    var p := b.peers[svc.ip].(nLastSuccess := nTime, nLastTry := nTime, nAttempts := 0);
    var b1 := b.(peers := b.peers[svc.ip := p]);
    assert AddrBook.Closed(b1);
    assert AddrBook.Good(k, b, svc, nTime) == AddrBook.Promote(k, b1, svc.ip);
  }
}
