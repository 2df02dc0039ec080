/** Whole runs of the address manager, and its own consistency check.
  *
  * A run starts from a freshly constructed manager and takes any sequence of steps, at any times. After
  * every run the tables are consistent, and the check of the source (Check_, src/addrman.cpp:387-461)
  * finds nothing wrong exactly as long as successes have positive times and attempts no negative ones.
  */
module AddrRuns {
  import opened AddrSteps
  import opened AddrTables
  import opened Numbers
  import AddrBook
  import AddrStore
  import A = AddrMan

  /** run[0] is the fresh manager and each state follows from the one before by a permitted step. */
  ghost predicate IsRun(k: Hashing, run: seq<State>, ops: seq<Op>) {
    && |run| == |ops| + 1
    && run[0] == AddrStore.Cleared
    && forall i :: 0 <= i < |ops| ==> Follows(k, run[i], ops[i], run[i + 1])
  }

  /** From a fresh manager on, every state of every run is consistent, and every address well placed. */
  lemma {:induction false} RunConsistent(k: Hashing, run: seq<State>, ops: seq<Op>, n: nat)
    requires IsRun(k, run, ops) && n < |run|
    ensures Inv(k, run[n], {}, 0)
    ensures AddrBook.Viewable(run[n])
    ensures forall a :: a in AddrBook.View(run[n]).peers ==> AddrBook.WellPlaced(k, AddrBook.View(run[n]), a)
  {
    hide Inv, Step, Permitted, AddrBook.Viewable, AddrBook.View, AddrBook.WellPlaced;
    if n == 0 {
      A.EmptyConsistent(k);
    } else {
      RunConsistent(k, run, ops, n - 1);
      assert Follows(k, run[n - 1], ops[n - 1], run[n]);
      StepKeeps(k, run[n - 1], ops[n - 1]);
    }
    AddrBook.InvViewable(k, run[n], {}, 0);
    forall a | a in AddrBook.View(run[n]).peers ensures AddrBook.WellPlaced(k, AddrBook.View(run[n]), a) {
      AddrBook.ConsistentBook(k, run[n], a);
    }
  }

  // ----- Check_ -----

  /** What Check_ tests of one entry. A missing address reads as id 0, because operator[] makes it so. */
  ghost predicate EntryOk(s: State, id: nat)
    requires id in s.mapInfo
  {
    var info := s.mapInfo[id];
    && (if info.fInTried then info.peer.nLastSuccess != 0 && info.nRefCount == 0
        else 1 <= info.nRefCount <= NEW_BUCKETS_PER_ADDRESS)
    && (if info.peer.svc.ip in s.mapAddr then s.mapAddr[info.peer.svc.ip] == id else id == 0)
    && info.nRandomPos < |s.vRandom| && s.vRandom[info.nRandomPos] == id
    && info.peer.nLastTry >= 0 && info.peer.nLastSuccess >= 0
  }

  ghost predicate EntriesOk(s: State) {
    forall id :: id in s.mapInfo ==> EntryOk(s, id)
  }

  /** Everything Check_ tests. */
  ghost predicate Passes(k: Hashing, s: State) {
    && |s.vRandom| == s.nTried + s.nNew
    && EntriesOk(s)
    && |TriedIds(s.mapInfo)| == s.nTried && |NewIds(s.mapInfo)| == s.nNew
    && TriedPlaced(k, s.mapInfo, s.vvTried)
    && NewPlaced(k, s.mapInfo, s.vvNew)
    && (forall id {:trigger SlotsOf(s.vvNew, id)} :: id in s.mapInfo ==>
          s.mapInfo[id].nRefCount == |SlotsOf(s.vvNew, id)|)
  }

  /** A consistent manager passes exactly when its times are in order. */
  lemma ConsistentPasses(k: Hashing, s: State)
    requires Inv(k, s, {}, 0)
    ensures Passes(k, s) <==> Timed(s.mapInfo)
  {
    hide TriedPlaced, NewPlaced, EntryOk;
    forall id | id in s.mapInfo ensures EntryOk(s, id) <==> PeerTimed(s.mapInfo[id].peer, s.mapInfo[id].fInTried) {
      EntryChecked(k, s, id);
    }
    CheckSizes(k, s);
  }

  // Over whole runs.

  /** After one step from a state that passes, the next one passes exactly when the step was fair. */
  lemma StepPasses(k: Hashing, s: State, op: Op)
    requires Inv(k, s, {}, 0) && Permitted(op, s) && Passes(k, s)
    ensures Passes(k, Step(k, s, op)) <==> Fair(s, op)
  {
    hide Inv, Passes, Step, Fair, Timed, Permitted;
    ConsistentPasses(k, s);
    StepKeeps(k, s, op);
    StepTimed(k, s, op);
    ConsistentPasses(k, Step(k, s, op));
  }

  /** All states of a run up to n pass exactly when all steps up to there are fair. */
  lemma {:induction false} RunPasses(k: Hashing, run: seq<State>, ops: seq<Op>, n: nat)
    requires IsRun(k, run, ops) && n < |run|
    ensures (forall m :: 0 <= m <= n ==> Passes(k, run[m])) <==> (forall i :: 0 <= i < n ==> Fair(run[i], ops[i]))
  {
    hide Inv, Passes, Step, Fair, Timed, Permitted;
    if n == 0 {
      RunConsistent(k, run, ops, 0);
      ConsistentPasses(k, run[0]);
      ClearedTimed();
    } else {
      RunPasses(k, run, ops, n - 1);
      RunConsistent(k, run, ops, n - 1);
      assert Follows(k, run[n - 1], ops[n - 1], run[n]);
      if Passes(k, run[n - 1]) { StepPasses(k, run[n - 1], ops[n - 1]); }
    }
  }

  lemma ClearedTimed()
    ensures Timed(AddrStore.Cleared.mapInfo)
  {
  }

  /** What Check_ does not see: addresses of no entry, ids that are not below nIdCount, and a missing address of id 0.
    */
  ghost predicate Unseen(s: State) {
    && (forall a :: a in s.mapAddr ==> HasAddr(s.mapInfo, s.mapAddr[a], a))
    && (forall id :: id in s.mapInfo ==> id < s.nIdCount)
    && (0 in s.mapInfo ==> s.mapInfo[0].peer.svc.ip in s.mapAddr)
  }

  /** A manager that passes is consistent, but for what Check_ does not see. */
  lemma PassingConsistent(k: Hashing, s: State)
    requires Passes(k, s) && Unseen(s)
    ensures Inv(k, s, {}, 0) && Timed(s.mapInfo)
  {
    hide TriedPlaced, NewPlaced, EntriesOk, AddrIndex, RandomIndex, Counted, SlotsOf;
    PassingAddrs(s);
    PassingShuffle(s);
    PassingCounts(s);
    assert NewIds(s.mapInfo) - {} == NewIds(s.mapInfo);
  }

  lemma PassingAddrs(s: State)
    requires EntriesOk(s) && Unseen(s)
    ensures AddrIndex(s.mapInfo, s.mapAddr) && Timed(s.mapInfo)
  {
    forall id | id in s.mapInfo ensures EntryOk(s, id) {}
  }

  lemma PassingCounts(s: State)
    requires EntriesOk(s)
    requires forall id {:trigger SlotsOf(s.vvNew, id)} :: id in s.mapInfo ==>
              s.mapInfo[id].nRefCount == |SlotsOf(s.vvNew, id)|
    ensures Counted(s.mapInfo, s.vvNew, {})
  {
    forall id | id in s.mapInfo ensures EntryOk(s, id) {}
  }

  /** As many positions as entries, and every entry at its own position: no position is left over. */
  lemma PassingShuffle(s: State)
    requires EntriesOk(s) && |s.vRandom| == |TriedIds(s.mapInfo)| + |NewIds(s.mapInfo)|
    ensures RandomIndex(s.mapInfo, s.vRandom)
  {
    IdsSplit(s.mapInfo);
    forall id | id in s.mapInfo
      ensures s.mapInfo[id].nRandomPos < |s.vRandom| && s.vRandom[s.mapInfo[id].nRandomPos] == id
    {
      assert EntryOk(s, id);
    }
    NoneLeftOver(s.mapInfo, s.vRandom);
  }

  lemma IdsSplit(info: map<nat, Info>)
    ensures |info.Keys| == |NewIds(info)| + |TriedIds(info)|
  {
    assert NewIds(info) !! TriedIds(info);
    assert info.Keys == NewIds(info) + TriedIds(info);
  }

  lemma NoneLeftOver(info: map<nat, Info>, random: seq<nat>)
    requires |random| == |info.Keys|
    requires forall id :: id in info ==> info[id].nRandomPos < |random| && random[info[id].nRandomPos] == id
    ensures RandomIndex(info, random)
  {
    PositionsUsed(info, random, info.Keys);
    var used := PositionsOf(info, info.Keys);
    IotaSize(|random|);
    forall p | p in used ensures p in Iota(|random|) { IotaHas(|random|, p); }
    FullSubset(used, Iota(|random|));
    forall i | 0 <= i < |random| ensures HasPos(info, random[i], i) {
      IotaHas(|random|, i);
      var id :| id in info.Keys && info[id].nRandomPos == i;
    }
  }

  ghost function PositionsOf(info: map<nat, Info>, ids: set<nat>): set<nat>
    requires ids <= info.Keys
  {
    set id | id in ids :: info[id].nRandomPos
  }

  lemma {:induction false} PositionsUsed(info: map<nat, Info>, random: seq<nat>, ids: set<nat>)
    requires ids <= info.Keys
    requires forall id :: id in info ==> info[id].nRandomPos < |random| && random[info[id].nRandomPos] == id
    ensures |PositionsOf(info, ids)| == |ids|
    decreases |ids|
  {
    if ids == {} {
      assert PositionsOf(info, ids) == {};
    } else {
      var id :| id in ids;
      PositionsUsed(info, random, ids - {id});
      assert PositionsOf(info, ids) == PositionsOf(info, ids - {id}) + {info[id].nRandomPos};
      assert info[id].nRandomPos !in PositionsOf(info, ids - {id});
    }
  }

  /** The numbers below n. */
  ghost function Iota(n: nat): set<nat> {
    if n == 0 then {} else Iota(n - 1) + {n - 1}
  }

  lemma {:induction false} IotaHas(n: nat, i: nat)
    ensures i in Iota(n) <==> i < n
  {
    if n > 0 { IotaHas(n - 1, i); }
  }

  lemma {:induction false} IotaSize(n: nat)
    ensures |Iota(n)| == n
  {
    if n > 0 {
      IotaSize(n - 1);
      IotaHas(n - 1, n - 1);
    }
  }

  lemma FullSubset(x: set<nat>, y: set<nat>)
    requires x <= y && |x| == |y|
    ensures x == y
  {
    assert |y - x| == 0;
  }

  /** mapAddr[addr]: the id, or a new entry with id 0. */
  method AddrEntry(m: A.AddrMan, addr: NetAddr) returns (id: nat)
    modifies m`mapAddr
    ensures id == if addr in old(m.mapAddr) then old(m.mapAddr)[addr] else 0
    ensures m.mapAddr == old(m.mapAddr)[addr := id]
  {
    if addr !in m.mapAddr {
      m.mapAddr := m.mapAddr[addr := 0];
    }
    id := m.mapAddr[addr];
  }

  /** The body of the first loop. */
  method CheckEntry(m: A.AddrMan, n: nat, ghost s: State) returns (err: int)
    requires m.Shape() && n in m.mapInfo && n in s.mapInfo && Filled(s, m.Tables())
    modifies m`mapAddr
    ensures m.Shape() && Filled(s, m.Tables())
    ensures err == 0 <==> EntryOk(s, n)
  {
    hide A.Slots, A.Sane;
    var info := m.mapInfo[n];
    if info.fInTried {
      if info.peer.nLastSuccess == 0 { return -1; }
      if info.nRefCount != 0 { return -2; }
    } else {
      if info.nRefCount < 0 || info.nRefCount > NEW_BUCKETS_PER_ADDRESS { return -3; }
      if info.nRefCount == 0 { return -4; }
    }
    var id := AddrEntry(m, info.peer.svc.ip);
    if id != n { return -5; }
    if info.nRandomPos >= |m.vRandom| || m.vRandom[info.nRandomPos] != n { return -14; }
    if info.peer.nLastTry < 0 { return -6; }
    if info.peer.nLastSuccess < 0 { return -8; }
    return 0;
  }

  /** The same tables, except that addresses missing from mapAddr may have been given id 0. */
  ghost predicate Filled(s: State, r: State) {
    && r == s.(mapAddr := r.mapAddr)
    && (forall a :: a in s.mapAddr ==> a in r.mapAddr && r.mapAddr[a] == s.mapAddr[a])
    && (forall a :: a in r.mapAddr && a !in s.mapAddr ==> r.mapAddr[a] == 0)
  }

  /** The first loop of Check_: every entry on its own; collects the tried ids and the counts of the new ones. */
  method CheckEntries(m: A.AddrMan) returns (err: int, setTried: set<nat>, mapNew: map<nat, int>)
    requires m.Shape()
    modifies m`mapAddr
    ensures m.Shape() && Filled(old(m.Tables()), m.Tables())
    ensures err == 0 <==> EntriesOk(old(m.Tables()))
    ensures err == 0 ==> setTried == TriedIds(m.mapInfo) && mapNew.Keys == NewIds(m.mapInfo)
    ensures err == 0 ==> forall id :: id in mapNew ==> mapNew[id] == m.mapInfo[id].nRefCount
  {
    hide A.Slots, A.Sane, Filled, EntryOk, Collected;
    ghost var s := m.Tables();
    FilledSelf(s);
    CollectedNone(s.mapInfo);
    err, setTried, mapNew := 0, {}, map[];
    var todo := m.mapInfo.Keys;
    while todo != {}
      invariant todo <= m.mapInfo.Keys && err == 0
      invariant m.Shape() && Filled(s, m.Tables()) && m.mapInfo == s.mapInfo
      invariant forall id :: id in s.mapInfo && id !in todo ==> EntryOk(s, id)
      invariant Collected(s.mapInfo, todo, setTried, mapNew)
      decreases |todo|
    {
      var n :| n in todo;
      err := CheckEntry(m, n, s);
      if err != 0 {
        return;
      }
      CollectedNext(s.mapInfo, todo, setTried, mapNew, n);
      if m.mapInfo[n].fInTried {
        setTried := setTried + {n};
      } else {
        mapNew := mapNew[n := m.mapInfo[n].nRefCount];
      }
      todo := todo - {n};
    }
    CollectedAll(s.mapInfo, setTried, mapNew);
  }

  /** The tried ids and the counts of the new ones, but for those still to do. */
  ghost predicate Collected(info: map<nat, Info>, todo: set<nat>, setTried: set<nat>, mapNew: map<nat, int>) {
    && setTried == TriedIds(info) - todo
    && mapNew.Keys == NewIds(info) - todo
    && forall id :: id in mapNew ==> mapNew[id] == info[id].nRefCount
  }

  lemma CollectedNone(info: map<nat, Info>)
    ensures Collected(info, info.Keys, {}, map[])
  {
  }

  lemma CollectedNext(info: map<nat, Info>, todo: set<nat>, setTried: set<nat>, mapNew: map<nat, int>, n: nat)
    requires Collected(info, todo, setTried, mapNew) && n in todo && n in info
    ensures if info[n].fInTried then Collected(info, todo - {n}, setTried + {n}, mapNew)
            else Collected(info, todo - {n}, setTried, mapNew[n := info[n].nRefCount])
  {
  }

  lemma CollectedAll(info: map<nat, Info>, setTried: set<nat>, mapNew: map<nat, int>)
    requires Collected(info, {}, setTried, mapNew)
    ensures setTried == TriedIds(info) && mapNew.Keys == NewIds(info)
    ensures forall id :: id in mapNew ==> mapNew[id] == info[id].nRefCount
  {
  }

  lemma FilledSelf(s: State)
    ensures Filled(s, s)
  {
  }

  lemma EntryChecked(k: Hashing, s: State, id: nat)
    requires Inv(k, s, {}, 0) && id in s.mapInfo
    ensures EntryOk(s, id) <==> PeerTimed(s.mapInfo[id].peer, s.mapInfo[id].fInTried)
  {
    hide TriedPlaced, NewPlaced, Tallied, Counted, SlotsOf;
    if s.mapInfo[id].fInTried { AddrStore.UntriedNoRef(k, s, id); } else { EntryBounds(s, id); }
  }

  lemma CheckSizes(k: Hashing, s: State)
    requires Inv(k, s, {}, 0)
    ensures |s.vRandom| == s.nTried + s.nNew
    ensures |TriedIds(s.mapInfo)| == s.nTried && |NewIds(s.mapInfo)| == s.nNew
  {
    hide AddrIndex, RandomIndex, TriedPlaced, NewPlaced, Counted;
    assert NewIds(s.mapInfo) - {} == NewIds(s.mapInfo);
    IdCount(s);
    IdsSplit(s.mapInfo);
  }

  lemma IdCount(s: State)
    requires Indexed(s)
    ensures |s.vRandom| == |s.mapInfo.Keys|
  {
    assert forall i :: 0 <= i < |s.vRandom| ==> HasPos(s.mapInfo, s.vRandom[i], i);
    ListSize(s.vRandom, s.mapInfo.Keys);
  }

  // The scan of the tried table.

  /** The slots scanned so far are their occupants' own, and `left` are the tried ids not met. */
  ghost predicate TriedScan(k: Hashing, s: State, b: nat, q: nat, left: set<nat>) {
    && (forall t :: t in AddrStore.Done(s.vvTried, b, q) ==> OwnsTried(k, s.mapInfo, s.vvTried[t], t))
    && (forall id :: id in left <==> id in TriedIds(s.mapInfo) && SlotsOf(AddrStore.Done(s.vvTried, b, q), id) == {})
  }

  lemma TriedScanStart(k: Hashing, s: State)
    ensures TriedScan(k, s, 0, 0, TriedIds(s.mapInfo))
  {
    assert AddrStore.Done(s.vvTried, 0, 0) == map[];
  }

  lemma TriedScanStep(k: Hashing, s: State, b: nat, q: nat, left: set<nat>)
    requires TriedScan(k, s, b, q, left) && (b, q) in s.vvTried
    ensures var id := s.vvTried[(b, q)];
            if id in left && k.TriedSlot(s.mapInfo[id].peer.svc) == (b, q)
            then TriedScan(k, s, b, q + 1, left - {id})
            else !TriedPlaced(k, s.mapInfo, s.vvTried)
  {
    var id := s.vvTried[(b, q)];
    var x, y := AddrStore.Done(s.vvTried, b, q), AddrStore.Done(s.vvTried, b, q + 1);
    assert y == x[(b, q) := id];
    if id in left && k.TriedSlot(s.mapInfo[id].peer.svc) == (b, q) {
      forall j: nat ensures SlotsOf(y, j) == if j == id then SlotsOf(x, j) + {(b, q)} else SlotsOf(x, j) {}
    } else if id in TriedIds(s.mapInfo) && id !in left {
      var t :| t in SlotsOf(x, id);
      assert OwnsTried(k, s.mapInfo, s.vvTried[t], t);
      assert !OwnsTried(k, s.mapInfo, s.vvTried[(b, q)], (b, q));
    } else {
      assert !OwnsTried(k, s.mapInfo, s.vvTried[(b, q)], (b, q));
    }
  }

  lemma TriedScanIdle(k: Hashing, s: State, b: nat, q: nat, left: set<nat>)
    requires TriedScan(k, s, b, q, left) && (b, q) !in s.vvTried
    ensures TriedScan(k, s, b, q + 1, left)
  {
    AddrStore.DoneIdle(s.vvTried, b, q);
  }

  lemma TriedScanBucket(k: Hashing, s: State, b: nat, left: set<nat>)
    requires TriedScan(k, s, b, BUCKET_SIZE, left) && (forall t :: t in s.vvTried ==> t.1 < BUCKET_SIZE)
    ensures TriedScan(k, s, b + 1, 0, left)
  {
    assert AddrStore.Done(s.vvTried, b, BUCKET_SIZE) == AddrStore.Done(s.vvTried, b + 1, 0);
  }

  lemma TriedScanEnd(k: Hashing, s: State, left: set<nat>)
    requires TriedScan(k, s, TRIED_BUCKET_COUNT, 0, left) && (forall t :: t in s.vvTried ==> t.0 < TRIED_BUCKET_COUNT)
    ensures left == {} <==> TriedPlaced(k, s.mapInfo, s.vvTried)
  {
    assert AddrStore.Done(s.vvTried, TRIED_BUCKET_COUNT, 0) == s.vvTried;
    forall id | id in TriedIds(s.mapInfo)
      ensures SlotsOf(s.vvTried, id) != {} <==> k.TriedSlot(s.mapInfo[id].peer.svc) in SlotsOf(s.vvTried, id)
    {
      if t :| t in SlotsOf(s.vvTried, id) { assert OwnsTried(k, s.mapInfo, s.vvTried[t], t); }
    }
    if left == {} {
      forall id | id in s.mapInfo && s.mapInfo[id].fInTried
        ensures k.TriedSlot(s.mapInfo[id].peer.svc) in s.vvTried && s.vvTried[k.TriedSlot(s.mapInfo[id].peer.svc)] == id
      {
        assert id !in left;
      }
    }
  }

  method CheckTried(m: A.AddrMan, tried: set<nat>) returns (err: int, setTried: set<nat>)
    requires m.Shape() && tried == TriedIds(m.mapInfo)
    ensures (err == 0 && setTried == {}) <==> TriedPlaced(m.nKey, m.mapInfo, m.Tables().vvTried)
  {
    hide A.Slots, TriedScan, TriedPlaced;
    ghost var s := m.Tables();
    err, setTried := 0, tried;
    TriedScanStart(m.nKey, s);
    var n := 0;
    while n < TRIED_BUCKET_COUNT
      invariant n <= TRIED_BUCKET_COUNT && err == 0 && setTried <= tried
      invariant TriedScan(m.nKey, s, n, 0, setTried)
    {
      var i := 0;
      while i < BUCKET_SIZE
        invariant i <= BUCKET_SIZE && err == 0 && setTried <= tried
        invariant TriedScan(m.nKey, s, n, i, setTried)
      {
        if m.vvTried[n, i] != -1 {
          var id: nat := m.vvTried[n, i];
          TriedScanStep(m.nKey, s, n, i, setTried);
          if id !in setTried { err := -11; return; }
          if m.nKey.TriedBucket(m.mapInfo[id].peer.svc) != n { err := -17; return; }
          if m.nKey.Position(m.mapInfo[id].peer.svc, false, n) != i { err := -18; return; }
          setTried := setTried - {id};
        } else {
          TriedScanIdle(m.nKey, s, n, i, setTried);
        }
        i := i + 1;
      }
      TriedScanBucket(m.nKey, s, n, setTried);
      n := n + 1;
    }
    TriedScanEnd(m.nKey, s, setTried);
  }

  // The scan of the new table.

  /** Slots scanned so far are their occupants' own, no count is exceeded, and `left` is what remains of the counts. */
  ghost predicate NewScan(k: Hashing, s: State, done: map<Slot, nat>, left: map<nat, int>) {
    && (forall t :: t in done ==> OwnsNew(k, s.mapInfo, done[t], t))
    && (forall id: nat {:trigger SlotsOf(done, id)} ::
          id in NewIds(s.mapInfo) ==>
            && |SlotsOf(done, id)| <= s.mapInfo[id].nRefCount
            && (id in left <==> |SlotsOf(done, id)| < s.mapInfo[id].nRefCount)
            && (id in left ==> left[id] == s.mapInfo[id].nRefCount - |SlotsOf(done, id)|))
    && left.Keys <= NewIds(s.mapInfo)
  }

  /** The new table is well placed and every new entry holds as many slots as it counts. */
  ghost predicate NewMatches(k: Hashing, info: map<nat, Info>, table: map<Slot, nat>) {
    && NewPlaced(k, info, table)
    && forall id {:trigger SlotsOf(table, id)} :: id in NewIds(info) ==> info[id].nRefCount == |SlotsOf(table, id)|
  }

  lemma NewScanStart(k: Hashing, s: State, counts: map<nat, int>)
    requires counts.Keys == NewIds(s.mapInfo)
    requires forall id :: id in counts ==> counts[id] == s.mapInfo[id].nRefCount && counts[id] >= 1
    ensures NewScan(k, s, AddrStore.Done(s.vvNew, 0, 0), counts)
  {
    assert AddrStore.Done(s.vvNew, 0, 0) == map[];
    forall id: nat ensures SlotsOf<nat>(map[], id) == {} {}
  }

  lemma NewScanStep(k: Hashing, s: State, b: nat, q: nat, left: map<nat, int>)
    requires NewScan(k, s, AddrStore.Done(s.vvNew, b, q), left) && (b, q) in s.vvNew && b < NEW_BUCKET_COUNT
    ensures s.vvNew[(b, q)] in left ==> s.vvNew[(b, q)] in s.mapInfo
    ensures var id := s.vvNew[(b, q)];
            if id in left && k.Position(s.mapInfo[id].peer.svc, true, b) == q
            then NewScan(k, s, AddrStore.Done(s.vvNew, b, q + 1),
                         if left[id] == 1 then left - {id} else left[id := left[id] - 1])
            else !NewMatches(k, s.mapInfo, s.vvNew)
  {
    var id := s.vvNew[(b, q)];
    var x, y := AddrStore.Done(s.vvNew, b, q), AddrStore.Done(s.vvNew, b, q + 1);
    assert y == x[(b, q) := id];
    assert (b, q) !in x;
    if id in left && k.Position(s.mapInfo[id].peer.svc, true, b) == q {
      var left' := if left[id] == 1 then left - {id} else left[id := left[id] - 1];
      NewScanPut(k, s, x, (b, q), id, left, left');
    } else if id in NewIds(s.mapInfo) && id !in left {
      assert SlotsOf(x, id) + {(b, q)} <= SlotsOf(s.vvNew, id);
      SubsetSize(SlotsOf(x, id) + {(b, q)}, SlotsOf(s.vvNew, id));
      assert (b, q) !in SlotsOf(x, id);
    } else {
      assert !OwnsNew(k, s.mapInfo, s.vvNew[(b, q)], (b, q));
    }
  }

  lemma NewScanPut(k: Hashing, s: State, x: map<Slot, nat>, t: Slot, id: nat, left: map<nat, int>, left': map<nat, int>)
    requires NewScan(k, s, x, left) && t !in x && id in left && OwnsNew(k, s.mapInfo, id, t)
    requires left' == if left[id] == 1 then left - {id} else left[id := left[id] - 1]
    ensures NewScan(k, s, x[t := id], left')
  {
    var y := x[t := id];
    forall j: nat | j in NewIds(s.mapInfo)
      ensures |SlotsOf(y, j)| <= s.mapInfo[j].nRefCount
      ensures j in left' <==> |SlotsOf(y, j)| < s.mapInfo[j].nRefCount
      ensures j in left' ==> left'[j] == s.mapInfo[j].nRefCount - |SlotsOf(y, j)|
    {
      SlotsPut(x, t, id, j);
      assert |SlotsOf(x, j)| <= s.mapInfo[j].nRefCount;
    }
    forall u | u in y ensures OwnsNew(k, s.mapInfo, y[u], u) {
      assert u != t ==> OwnsNew(k, s.mapInfo, x[u], u);
    }
  }

  lemma NewScanEnd(k: Hashing, s: State, left: map<nat, int>)
    requires NewScan(k, s, s.vvNew, left)
    ensures left == map[] <==> NewMatches(k, s.mapInfo, s.vvNew)
  {
    if left == map[] {
      forall id | id in NewIds(s.mapInfo) ensures s.mapInfo[id].nRefCount == |SlotsOf(s.vvNew, id)| {}
    } else {
      var id :| id in left.Keys;
      assert |SlotsOf(s.vvNew, id)| < s.mapInfo[id].nRefCount;
    }
  }

  lemma DoneAll(s: State, b: nat)
    requires forall t :: t in s.vvNew ==> t.0 < NEW_BUCKET_COUNT && t.1 < BUCKET_SIZE
    ensures AddrStore.Done(s.vvNew, b, BUCKET_SIZE) == AddrStore.Done(s.vvNew, b + 1, 0)
    ensures AddrStore.Done(s.vvNew, NEW_BUCKET_COUNT, 0) == s.vvNew
  {
    assert AddrStore.Done(s.vvNew, b, BUCKET_SIZE) == AddrStore.Done(s.vvNew, b + 1, 0);
    assert AddrStore.Done(s.vvNew, NEW_BUCKET_COUNT, 0) == s.vvNew;
  }

  method CheckNew(m: A.AddrMan, counts: map<nat, int>) returns (err: int, mapNew: map<nat, int>)
    requires m.Shape() && counts.Keys == NewIds(m.mapInfo)
    requires forall id :: id in counts ==> counts[id] == m.mapInfo[id].nRefCount && counts[id] >= 1
    ensures (err == 0 && mapNew == map[]) <==> NewMatches(m.nKey, m.mapInfo, m.Tables().vvNew)
  {
    hide A.Slots, A.Sane, NewScan, NewMatches, AddrStore.Done;
    ghost var s := m.Tables();
    err, mapNew := 0, counts;
    NewScanStart(m.nKey, s, mapNew);
    var n := 0;
    while n < NEW_BUCKET_COUNT
      invariant n <= NEW_BUCKET_COUNT && err == 0
      invariant NewScan(m.nKey, s, AddrStore.Done(s.vvNew, n, 0), mapNew)
    {
      var i := 0;
      while i < BUCKET_SIZE
        invariant i <= BUCKET_SIZE && err == 0
        invariant NewScan(m.nKey, s, AddrStore.Done(s.vvNew, n, i), mapNew)
      {
        if m.vvNew[n, i] != -1 {
          var id: nat := m.vvNew[n, i];
          NewScanStep(m.nKey, s, n, i, mapNew);
          if id !in mapNew { err := -12; return; }
          if m.nKey.Position(m.mapInfo[id].peer.svc, true, n) != i { err := -19; return; }
          if mapNew[id] == 1 {
            mapNew := mapNew - {id};
          } else {
            mapNew := mapNew[id := mapNew[id] - 1];
          }
        } else {
          AddrStore.DoneIdle(s.vvNew, n, i);
        }
        i := i + 1;
      }
      DoneAll(s, n);
      n := n + 1;
    }
    DoneAll(s, 0);
    NewScanEnd(m.nKey, s, mapNew);
  }

  /** Check_ (src/addrman.cpp:387-461) returns 0 exactly for the tables that pass, under a key that is not null. */
  method Check(m: A.AddrMan) returns (err: int)
    requires m.Shape()
    modifies m`mapAddr
    ensures err == 0 <==> Passes(m.nKey, old(m.Tables())) && m.nKey.nKey != 0
    ensures m.Shape() && Filled(old(m.Tables()), m.Tables())
  {
    hide A.Slots, A.Sane, TriedPlaced, NewMatches, EntriesOk, Filled;
    ghost var s := m.Tables();
    FilledSelf(s);
    if |m.vRandom| != m.nTried + m.nNew {
      return -7;
    }
    var setTried, mapNew;
    err, setTried, mapNew := CheckEntries(m);
    FilledSame(s, m.Tables());
    if err != 0 { return; }
    CountsPositive(s);
    if |setTried| != m.nTried { return -9; }
    if |mapNew| != m.nNew { return -10; }
    PassesRest(m.nKey, s);
    err, setTried := CheckTried(m, setTried);
    if err != 0 { return; }
    err, mapNew := CheckNew(m, mapNew);
    if err != 0 { return; }
    if |setTried| != 0 { return -13; }
    if |mapNew| != 0 { return -15; }
    if m.nKey.nKey == 0 { return -16; }
    return 0;
  }

  lemma FilledSame(s: State, r: State)
    requires Filled(s, r)
    ensures r == s.(mapAddr := r.mapAddr)
  {
  }

  lemma CountsPositive(s: State)
    ensures EntriesOk(s) ==> forall id :: id in NewIds(s.mapInfo) ==> s.mapInfo[id].nRefCount >= 1
  {
    if EntriesOk(s) {
      forall id | id in NewIds(s.mapInfo) ensures s.mapInfo[id].nRefCount >= 1 { assert EntryOk(s, id); }
    }
  }

  /** Once the entries are in order, the table scans decide. */
  lemma PassesRest(k: Hashing, s: State)
    requires EntriesOk(s) && |s.vRandom| == s.nTried + s.nNew
    requires |TriedIds(s.mapInfo)| == s.nTried && |NewIds(s.mapInfo)| == s.nNew
    ensures Passes(k, s) <==> TriedPlaced(k, s.mapInfo, s.vvTried) && NewMatches(k, s.mapInfo, s.vvNew)
  {
    hide TriedPlaced;
    if NewMatches(k, s.mapInfo, s.vvNew) {
      forall id | id in s.mapInfo ensures s.mapInfo[id].nRefCount == |SlotsOf(s.vvNew, id)| {
        assert EntryOk(s, id);
        if s.mapInfo[id].fInTried { NoSlots(k, s.mapInfo, s.vvNew, id); }
      }
    }
  }
}
