/** Every run of operations on a stack of coin caches agrees with a list of flat maps.
  *
  * Every operation may address any cache of the stack; caches come and go at the top. A change in a
  * lower cache shows at all levels above it up to the first cache that holds the transaction itself, and
  * it is sound exactly when the flags of that entry are true of it (`ChangeExact`).
  */
module CoinsRuns {
  import opened Coins
  import opened Options

  datatype Op =
    | Read(level: nat, id: Txid)
    | Uncache(level: nat, id: Txid)
    | Modify(level: nat, top: nat, id: Txid, coins: Coins)
    | ModifyNew(level: nat, top: nat, id: Txid, coinbase: bool, coins: Coins)
    | Flush(level: nat)
    | Push
    | Pop

  type Utxo = map<Txid, Coins>

  /** What each level shows, from the top. */
  ghost function Views(s: Stack): seq<Utxo> {
    [Utxos(s)] + if s.Cache? then Views(s.below) else []
  }

  function Levels(s: Stack): nat {
    if s.Cache? then 1 + Levels(s.below) else 0
  }

  // ----- Changes below the topmost cache -----

  /** The part of the stack from a level down. */
  function At(s: Stack, level: nat): Stack
    requires level <= Levels(s)
  {
    if level == 0 then s else At(s.below, level - 1)
  }

  /** The stack with another part from that level down. */
  function Over(s: Stack, level: nat, part: Stack): Stack
    requires level <= Levels(s)
  {
    if level == 0 then part else s.(below := Over(s.below, level - 1, part))
  }

  /** The topmost level at which a change of t at `level` shows: the caches from there to `level` do not hold t. */
  function Top(s: Stack, level: nat, t: Txid): (top: nat)
    requires level <= Levels(s)
    ensures top <= level
  {
    if level == 0 then 0
    else if Top(s.below, level - 1, t) == 0 && t !in s.entries then 0
    else Top(s.below, level - 1, t) + 1
  }

  /** The flags of an entry are true of a view below that has `left` of its transaction. */
  predicate FlagsHold(e: Entry, left: Option<Coins>) {
    (!e.isDirty ==> Unpruned(Some(e.coins)) == left) && (e.isFresh ==> left == None)
  }

  /** The entry that hides a change of t to `left` at `level`, if there is one, has flags that are true of it. */
  predicate Lets(s: Stack, level: nat, t: Txid, left: Option<Coins>)
    requires level <= Levels(s)
  {
    var top := Top(s, level, t);
    top == 0 || (t in Hiding(s, level, t) && FlagsHold(Hiding(s, level, t)[t], left))
  }

  /** The entries of the cache above the topmost level at which a change shows. */
  function Hiding(s: Stack, level: nat, t: Txid): Entries
    requires level <= Levels(s) && Top(s, level, t) > 0
  {
    if Top(s.below, level - 1, t) == 0 then s.entries else Hiding(s.below, level - 1, t)
  }

  /** No cache from the topmost level down to `level` holds t, and the one above it does. */
  lemma {:induction false} TopMeans(s: Stack, level: nat, t: Txid)
    requires level <= Levels(s)
    ensures var top := Top(s, level, t);
            && (forall i :: top <= i < level ==> At(s, i).Cache? && t !in At(s, i).entries)
            && (top > 0 ==>
                  At(s, top - 1).Cache? && t in At(s, top - 1).entries && Hiding(s, level, t) == At(s, top - 1).entries)
  {
    if level > 0 {
      TopMeans(s.below, level - 1, t);
      var top := Top(s, level, t);
      forall i | top <= i < level ensures At(s, i).Cache? && t !in At(s, i).entries {
        if i > 0 { assert At(s, i) == At(s.below, i - 1); }
      }
      if top > 1 { assert At(s, top - 1) == At(s.below, top - 2); }
    }
  }

  /** The part from `level` down has changed at t only. */
  ghost predicate ChangedAt(s: Stack, level: nat, part: Stack, t: Txid)
    requires level <= Levels(s)
  {
    forall u :: u != t ==> Left(part, u) == Left(At(s, level), u)
  }

  lemma {:induction false} OverShows(s: Stack, level: nat, part: Stack, t: Txid, u: Txid)
    requires level <= Levels(s) && ChangedAt(s, level, part, t)
    ensures Left(Over(s, level, part), u) == if u == t && Top(s, level, t) == 0 then Left(part, t) else Left(s, u)
  {
    if level > 0 {
      OverShows(s.below, level - 1, part, t, u);
      CacheShows(s, u);
      CacheShows(Over(s, level, part), u);
    }
  }

  /** A change in a lower cache leaves the flags sound exactly when the entry that hides it has flags true of it. */
  lemma {:induction false} ChangeExact(s: Stack, level: nat, part: Stack, t: Txid)
    requires Sound(s) && level <= Levels(s) && Sound(part) && ChangedAt(s, level, part, t)
    ensures Sound(Over(s, level, part)) <==> Lets(s, level, t, Left(part, t))
  {
    hide Found, Left;
    if level > 0 {
      var below := Over(s.below, level - 1, part);
      ChangeExact(s.below, level - 1, part, t);
      TopMeans(s.below, level - 1, t);
      forall u ensures
        Left(below, u) == if u == t && Top(s.below, level - 1, t) == 0 then Left(part, t) else Left(s.below, u)
      {
        OverShows(s.below, level - 1, part, t, u);
      }
      FlagsExact(s.entries, s.below, below, t);
    }
  }

  /** Over a view that has changed at t only, the flags mean what they say exactly when those of t do. */
  lemma FlagsExact(entries: Entries, below: Stack, below': Stack, t: Txid)
    requires FlagsMean(entries, below) && forall u :: u != t ==> Left(below', u) == Left(below, u)
    ensures FlagsMean(entries, below') <==> (t in entries ==> FlagsHold(entries[t], Left(below', t)))
    ensures t in entries ==> FlagsHold(entries[t], Left(below, t))
  {
    hide Found, Left;
    assert t in entries ==> FlagsMeanAt(entries[t], below, t);
    assert t in entries ==> (FlagsMeanAt(entries[t], below', t) <==> FlagsHold(entries[t], Left(below', t)));
    forall u | u in entries && u != t ensures FlagsMeanAt(entries[u], below', u) {
      assert FlagsMeanAt(entries[u], below, u);
    }
  }

  /** The change shows from `level` up to the topmost level it reaches, and nowhere above. */
  lemma {:induction false} ChangeViews(s: Stack, level: nat, part: Stack, t: Txid)
    requires level <= Levels(s) && ChangedAt(s, level, part, t)
    ensures |Views(s)| > level && |Views(Over(s, level, part))| == level + |Views(part)|
    ensures forall i :: 0 <= i < level ==>
              Views(Over(s, level, part))[i] ==
                if i < Top(s, level, t) then Views(s)[i] else Except(Views(s)[i], t, Left(part, t))
    ensures Views(Over(s, level, part))[level..] == Views(part)
    ensures Views(s)[level..] == Views(At(s, level))
  {
    hide Left, Utxos, Views, Except, Over, ChangedAt;
    ViewsLength(s);
    ViewsLength(part);
    OverStep(s, level, part, t);
    if level > 0 {
      ChangeViews(s.below, level - 1, part, t);
      OverTop(s, level, part, t);
      ViewsFirst(s);
      ViewsFirst(Over(s, level, part));
      Shifted(Views(s), Views(s.below), level);
      Shifted(Views(Over(s, level, part)), Views(Over(s.below, level - 1, part)), level);
    }
  }

  lemma Shifted(a: seq<Utxo>, b: seq<Utxo>, level: nat)
    requires 0 < level < |a| == |b| + 1 && b == a[1..]
    ensures a[level..] == b[level - 1..]
    ensures forall i :: 1 <= i < |a| ==> a[i] == b[i - 1]
  {
  }

  lemma OverStep(s: Stack, level: nat, part: Stack, t: Txid)
    requires level <= Levels(s) && ChangedAt(s, level, part, t)
    ensures level == 0 ==> Over(s, level, part) == part
    ensures level > 0 ==>
              && Over(s, level, part) == s.(below := Over(s.below, level - 1, part))
              && ChangedAt(s.below, level - 1, part, t)
  {
  }

  lemma OverTop(s: Stack, level: nat, part: Stack, t: Txid)
    requires level <= Levels(s) && ChangedAt(s, level, part, t)
    ensures Utxos(Over(s, level, part)) ==
              if Top(s, level, t) == 0 then Except(Utxos(s), t, Left(part, t)) else Utxos(s)
  {
    hide Left, Utxos, ChangedAt, Over;
    var s' := Over(s, level, part);
    forall u ensures Left(s', u) == if u == t && Top(s, level, t) == 0 then Left(part, t) else Left(s, u) {
      OverShows(s, level, part, t, u);
    }
    if Top(s, level, t) == 0 { UtxosExcept(s, s', t); } else { SameUtxos(s', s); }
  }

  ghost function Except(m: Utxo, t: Txid, left: Option<Coins>): Utxo {
    if left.Some? then m[t := left.value] else m - {t}
  }

  // ----- What the operations do to the caches -----

  function ReadAt(s: Stack, level: nat, t: Txid): Stack
    requires level < Levels(s)
  {
    if level == 0 then Fetched(s, t) else s.(below := ReadAt(s.below, level - 1, t))
  }

  function UncacheAt(s: Stack, level: nat, t: Txid): Stack
    requires level < Levels(s)
  {
    if level == 0 then Uncached(s, t) else s.(below := UncacheAt(s.below, level - 1, t))
  }

  function FlushAt(s: Stack, level: nat): Stack
    requires level < Levels(s)
  {
    if level == 0 then Flushed(s) else s.(below := FlushAt(s.below, level - 1))
  }

  function Modified(s: Stack, t: Txid, coins: Coins): Stack
    requires s.Cache?
  {
    CloseModifier(OpenModifier(s, t), t, coins)
  }

  function ModifiedNew(s: Stack, t: Txid, coinbase: bool, coins: Coins): Stack
    requires s.Cache?
  {
    CloseModifier(OpenNewModifier(s, t, coinbase), t, coins)
  }

  /** What a modifier leaves. */
  function Kept(coins: Coins): Option<Coins> {
    if Pruned(coins) then None else Some(Cleaned(coins))
  }

  lemma {:induction false} AtCache(s: Stack, level: nat)
    requires level < Levels(s)
    ensures At(s, level).Cache? && (Sound(s) ==> Sound(At(s, level)))
  {
    if level > 0 { AtCache(s.below, level - 1); }
  }

  /** A change may be made at a level up to which it shows, unless an entry that hides it would have false flags. */
  ghost predicate Changeable(s: Stack, level: nat, top: nat, id: Txid, coins: Coins) {
    level < Levels(s) && top == Top(s, level, id) && Lets(s, level, id, Kept(coins))
  }

  ghost predicate Enabled(s: Stack, op: Op) {
    match op
    case Read(level, _) => level < Levels(s)
    case Uncache(level, _) => level < Levels(s)
    case Modify(level, top, id, coins) => Changeable(s, level, top, id, coins)
    case ModifyNew(level, top, id, coinbase, coins) =>
      Changeable(s, level, top, id, coins) && (coinbase || id !in Utxos(At(s, level + 1)))
    case Flush(level) => level < Levels(s)
    case Push => true
    case Pop => s.Cache?
  }

  ghost function Apply(s: Stack, op: Op): Stack
    requires Enabled(s, op)
  {
    match op
    case Read(level, id) => ReadAt(s, level, id)
    case Uncache(level, id) => UncacheAt(s, level, id)
    case Modify(level, _, id, coins) => AtCache(s, level); Over(s, level, Modified(At(s, level), id, coins))
    case ModifyNew(level, _, id, coinbase, coins) =>
      AtCache(s, level); Over(s, level, ModifiedNew(At(s, level), id, coinbase, coins))
    case Flush(level) => FlushAt(s, level)
    case Push => Cache(map[], s)
    case Pop => s.below
  }

  // ----- What they do to flat maps -----

  ghost function Put(m: Utxo, id: Txid, coins: Coins): Utxo {
    Except(m, id, Kept(coins))
  }

  ghost function PutBetween(views: seq<Utxo>, top: nat, level: nat, id: Txid, coins: Coins): seq<Utxo> {
    seq(|views|, i requires 0 <= i < |views| => if top <= i <= level then Put(views[i], id, coins) else views[i])
  }

  /** Reading and uncaching do nothing, modifying changes one id in the maps it shows in, flushing copies a map one
    * level down.
    */
  ghost function Meant(views: seq<Utxo>, op: Op): seq<Utxo>
    requires |views| > 0 && (op.Flush? ==> op.level + 1 < |views|)
  {
    match op
    case Read(_, _) => views
    case Uncache(_, _) => views
    case Modify(level, top, id, coins) => PutBetween(views, top, level, id, coins)
    case ModifyNew(level, top, id, _, coins) => PutBetween(views, top, level, id, coins)
    case Flush(level) => views[level + 1 := views[level]]
    case Push => [views[0]] + views
    case Pop => if |views| > 1 then views[1..] else views
  }

  // ----- They agree -----

  lemma {:induction false} ViewsLength(s: Stack)
    ensures |Views(s)| == Levels(s) + 1 && Views(s)[0] == Utxos(s)
  {
    if s.Cache? { ViewsLength(s.below); }
  }

  lemma CacheShows(s: Stack, t: Txid)
    requires s.Cache?
    ensures Left(s, t) == if t in s.entries then Unpruned(Some(s.entries[t].coins)) else Left(s.below, t)
  {
  }

  /** A cache over a view that shows the same as before still shows the same, with sound flags. */
  lemma OverSame(s: Stack, below: Stack)
    requires Sound(s) && s.Cache? && Sound(below) && Utxos(below) == Utxos(s.below)
    ensures Sound(s.(below := below)) && Utxos(s.(below := below)) == Utxos(s)
  {
    forall t ensures Left(below, t) == Left(s.below, t) { UtxosAt(below, t); UtxosAt(s.below, t); }
    SameBelow(s.entries, s.below, below);
    var s' := s.(below := below);
    forall t ensures Left(s', t) == Left(s, t) {
      assert Left(below, t) == Left(s.below, t);
      CacheShows(s, t);
      CacheShows(s', t);
    }
    SameUtxos(s', s);
  }

  lemma {:induction false} FetchedViews(s: Stack, t: Txid)
    requires Sound(s)
    ensures Sound(Fetched(s, t)) && Views(Fetched(s, t)) == Views(s)
  {
    ReadKeeps(s, t);
    if s.Cache? && t !in s.entries { FetchedViews(s.below, t); }
  }

  lemma {:induction false} ReadViews(s: Stack, level: nat, t: Txid)
    requires Sound(s) && level < Levels(s)
    ensures Sound(ReadAt(s, level, t)) && Views(ReadAt(s, level, t)) == Views(s)
  {
    if level == 0 {
      FetchedViews(s, t);
    } else {
      var below := ReadAt(s.below, level - 1, t);
      ReadViews(s.below, level - 1, t);
      ViewsLength(below);
      ViewsLength(s.below);
      OverSame(s, below);
    }
  }

  lemma {:induction false} UncacheViews(s: Stack, level: nat, t: Txid)
    requires Sound(s) && level < Levels(s)
    ensures Sound(UncacheAt(s, level, t)) && Views(UncacheAt(s, level, t)) == Views(s)
  {
    if level == 0 {
      UncacheKeeps(s, t);
    } else {
      var below := UncacheAt(s.below, level - 1, t);
      UncacheViews(s.below, level - 1, t);
      ViewsLength(below);
      ViewsLength(s.below);
      OverSame(s, below);
    }
  }

  lemma {:induction false} FlushViews(s: Stack, level: nat)
    requires Sound(s) && level < Levels(s)
    ensures |Views(s)| == Levels(s) + 1
    ensures Sound(FlushAt(s, level)) && Views(FlushAt(s, level)) == Views(s)[level + 1 := Views(s)[level]]
  {
    hide Utxos, Flushed, Views, Sound;
    ViewsLength(s);
    ViewsLength(s.below);
    ViewsFirst(s);
    if level == 0 {
      FlushKeeps(s);
      FlushedBelow(s);
      ViewsFirst(Flushed(s));
    } else {
      var below := FlushAt(s.below, level - 1);
      FlushViews(s.below, level - 1);
      ViewsLength(below);
      OverSame(s, below);
      ViewsFirst(s.(below := below));
    }
  }

  /** A flush changes nothing beyond the view it writes to. */
  lemma FlushedBelow(s: Stack)
    requires s.Cache?
    ensures Flushed(s).Cache?
    ensures Views(Flushed(s).below) == [Utxos(Flushed(s).below)] + Views(s.below)[1..]
  {
    hide Utxos;
  }

  lemma TopViews(s: Stack, s': Stack)
    requires s.Cache? && s'.Cache? && Views(s'.below) == Views(s.below)
    ensures Views(s') == Views(s)[0 := Utxos(s')]
  {
    hide Utxos;
  }

  /** A modifier changes its own cache only, and leaves caches below showing what they showed. */
  lemma ModifierBelow(s: Stack, id: Txid, coins: Coins, coinbase: bool)
    requires Sound(s) && s.Cache?
    ensures Modified(s, id, coins).Cache? && Views(Modified(s, id, coins).below) == Views(s.below)
    ensures ModifiedNew(s, id, coinbase, coins).Cache? && ModifiedNew(s, id, coinbase, coins).below == s.below
  {
    hide Utxos, Views, Cleaned, Opened, OpenedNew;
    if id !in s.entries { FetchedViews(s.below, id); }
  }

  lemma ModifyViews(s: Stack, id: Txid, coins: Coins)
    requires Sound(s) && s.Cache?
    ensures Sound(Modified(s, id, coins)) && Utxos(Modified(s, id, coins)) == Put(Utxos(s), id, coins)
    ensures Views(Modified(s, id, coins)) == Views(s)[0 := Put(Utxos(s), id, coins)]
  {
    hide Utxos, Views, Sound, CloseModifier, Cleaned;
    OpenKeeps(s, id);
    CloseKeeps(OpenModifier(s, id), id, coins);
    ModifierBelow(s, id, coins, false);
    TopViews(s, Modified(s, id, coins));
  }

  lemma ModifyNewViews(s: Stack, id: Txid, coinbase: bool, coins: Coins)
    requires Sound(s) && s.Cache? && (coinbase || id !in Utxos(s.below))
    ensures Sound(ModifiedNew(s, id, coinbase, coins))
    ensures Utxos(ModifiedNew(s, id, coinbase, coins)) == Put(Utxos(s), id, coins)
    ensures Views(ModifiedNew(s, id, coinbase, coins)) == Views(s)[0 := Put(Utxos(s), id, coins)]
  {
    hide Utxos, Views, Sound, CloseModifier, Cleaned;
    OpenNewKeeps(s, id, coinbase);
    CloseKeeps(OpenNewModifier(s, id, coinbase), id, coins);
    ModifierBelow(s, id, coins, coinbase);
    TopViews(s, ModifiedNew(s, id, coinbase, coins));
    assert Put(Utxos(s) - {id}, id, coins) == Put(Utxos(s), id, coins);
  }

  lemma PutShows(part: Stack, part': Stack, id: Txid, coins: Coins)
    requires Utxos(part') == Put(Utxos(part), id, coins)
    ensures Left(part', id) == Kept(coins) && forall u :: u != id ==> Left(part', u) == Left(part, u)
  {
    hide Utxos, Left, Cleaned;
    forall u ensures Left(part', u) == if u == id then Kept(coins) else Left(part, u) {
      UtxosAt(part, u);
      UtxosAt(part', u);
    }
  }

  /** A modification at any level. */
  lemma ModifyAtViews(s: Stack, level: nat, part: Stack, id: Txid, coins: Coins)
    requires Sound(s) && level <= Levels(s) && Sound(part) && Utxos(part) == Put(Utxos(At(s, level)), id, coins)
    requires Views(part) == Views(At(s, level))[0 := Put(Utxos(At(s, level)), id, coins)]
    ensures Sound(Over(s, level, part)) <==> Lets(s, level, id, Kept(coins))
    ensures Views(Over(s, level, part)) == PutBetween(Views(s), Top(s, level, id), level, id, coins)
  {
    hide Sound, Utxos, Left, Views, Kept, Over, Lets;
    PutShows(At(s, level), part, id, coins);
    ChangeExact(s, level, part, id);
    ChangeViews(s, level, part, id);
    ViewsLength(At(s, level));
    PutSlices(Views(s), Views(Over(s, level, part)), Top(s, level, id), level, id, coins);
  }

  lemma PutSlices(views: seq<Utxo>, after: seq<Utxo>, top: nat, level: nat, id: Txid, coins: Coins)
    requires top <= level < |views| == |after|
    requires forall i :: 0 <= i < level ==> after[i] == if i < top then views[i] else Except(views[i], id, Kept(coins))
    requires after[level..] == views[level..][0 := Put(views[level], id, coins)]
    ensures after == PutBetween(views, top, level, id, coins)
  {
    hide Kept, Except;
    forall i | 0 <= i < |views| ensures after[i] == PutBetween(views, top, level, id, coins)[i] {
      if i >= level { assert after[i] == after[level..][i - level]; }
    }
  }

  /** Where a transaction is held above, a modification may leave a clean entry that is wrong: with one unspent
    * output in the database and a copy in the upper cache, spending it in the lower cache does not show above,
    * until the upper cache forgets its copy.
    */
  lemma StaleAbove(t: Txid, c: Coins, low: Stack, s: Stack)
    requires !Pruned(c) && low == Cache(map[], Database(map[t := c]))
    requires s == Cache(map[t := Entry(c, false, false)], low)
    ensures Sound(s) && !Lets(s, 1, t, Kept(NO_COINS))
    ensures var s' := Over(s, 1, Modified(low, t, NO_COINS));
            && !Sound(s') && t in Utxos(s') && t !in Utxos(At(s', 1)) && t !in Utxos(UncacheAt(s', 0, t))
  {
    var part := Modified(low, t, NO_COINS);
    assert FlagsMeanAt(s.entries[t], low, t);
    ModifyViews(low, t, NO_COINS);
    PutShows(low, part, t, NO_COINS);
    assert At(s, 1) == At(low, 0) == low;
    ChangeExact(s, 1, part, t);
    var s' := Over(s, 1, part);
    UtxosAt(s', t);
    UtxosAt(UncacheAt(s', 0, t), t);
  }

  lemma StepAgrees(s: Stack, op: Op)
    requires Sound(s) && Enabled(s, op)
    ensures |Views(s)| == Levels(s) + 1
    ensures Sound(Apply(s, op)) && Views(Apply(s, op)) == Meant(Views(s), op)
  {
    hide Sound, Utxos, Views, Lets, Modified, ModifiedNew, Put;
    ViewsLength(s);
    ViewsFirst(s);
    match op
    case Read(level, id) => ReadViews(s, level, id);
    case Uncache(level, id) => UncacheViews(s, level, id);
    case Modify(level, _, id, coins) =>
      AtCache(s, level);
      ModifyViews(At(s, level), id, coins);
      ModifyAtViews(s, level, Modified(At(s, level), id, coins), id, coins);
    case ModifyNew(level, _, id, coinbase, coins) =>
      AtCache(s, level);
      AtBelow(s, level);
      ModifyNewViews(At(s, level), id, coinbase, coins);
      ModifyAtViews(s, level, ModifiedNew(At(s, level), id, coinbase, coins), id, coins);
    case Flush(level) => FlushViews(s, level);
    case Push => PushViews(s);
    case Pop =>
  }

  lemma {:induction false} AtBelow(s: Stack, level: nat)
    requires level < Levels(s)
    ensures At(s, level).Cache? && At(s, level + 1) == At(s, level).below
  {
    if level > 0 { AtBelow(s.below, level - 1); }
  }

  lemma ViewsFirst(s: Stack)
    ensures s.Cache? ==> Views(s) == [Utxos(s)] + Views(s.below) && (Sound(s) ==> Sound(s.below))
  {
  }

  lemma PushViews(s: Stack)
    requires Sound(s)
    ensures Sound(Cache(map[], s)) && Views(Cache(map[], s)) == [Utxos(s)] + Views(s)
  {
    SameUtxos(Cache(map[], s), s);
  }

  ghost predicate Feasible(s: Stack, ops: seq<Op>)
    decreases |ops|
  {
    ops == [] || (Enabled(s, ops[0]) && Feasible(Apply(s, ops[0]), ops[1..]))
  }

  ghost function After(s: Stack, ops: seq<Op>): Stack
    requires Feasible(s, ops)
    decreases |ops|
  {
    if ops == [] then s else After(Apply(s, ops[0]), ops[1..])
  }

  /** The run on flat maps from `views`. */
  ghost predicate MeantAfter(views: seq<Utxo>, ops: seq<Op>, end: seq<Utxo>)
    decreases |ops|
  {
    if ops == [] then end == views
    else
      && |views| > 0 && (ops[0].Flush? ==> ops[0].level + 1 < |views|)
      && MeantAfter(Meant(views, ops[0]), ops[1..], end)
  }

  /** Through every run the flags mean what they say, and every level shows exactly its flat map. */
  lemma {:induction false} RunAgrees(s: Stack, ops: seq<Op>)
    requires Sound(s) && Feasible(s, ops)
    ensures Sound(After(s, ops)) && MeantAfter(Views(s), ops, Views(After(s, ops)))
    decreases |ops|
  {
    hide Sound, Views, Apply, Meant;
    if ops != [] {
      StepAgrees(s, ops[0]);
      EnabledLevel(s, ops[0]);
      RunAgrees(Apply(s, ops[0]), ops[1..]);
    }
  }

  lemma EnabledLevel(s: Stack, op: Op)
    requires Enabled(s, op)
    ensures |Views(s)| > 0 && (op.Flush? ==> op.level + 1 < |Views(s)|)
  {
    ViewsLength(s);
  }

  // ----- HaveCoins over runs -----

  lemma {:induction false} ReadTidy(s: Stack, level: nat, t: Txid)
    requires AllTidy(s) && level < Levels(s)
    ensures AllTidy(ReadAt(s, level, t)) && AllTidy(UncacheAt(s, level, t))
  {
    if level == 0 { FetchedTidy(s, t); } else { ReadTidy(s.below, level - 1, t); }
  }

  lemma {:induction false} FlushTidy(s: Stack, level: nat)
    requires AllTidy(s) && level < Levels(s)
    ensures AllTidy(FlushAt(s, level))
  {
    if level == 0 {
      assert AllTidy(Written(s.below, s.entries));
    } else {
      FlushTidy(s.below, level - 1);
    }
  }

  lemma ModifyTidy(s: Stack, id: Txid, coins: Coins, coinbase: bool)
    requires AllTidy(s) && s.Cache?
    ensures AllTidy(Modified(s, id, coins)) && AllTidy(ModifiedNew(s, id, coinbase, coins))
  {
    CleanedSame(coins);
    FetchedTidy(s.below, id);
  }

  lemma {:induction false} OverTidy(s: Stack, level: nat, part: Stack)
    requires AllTidy(s) && level <= Levels(s)
    ensures AllTidy(At(s, level)) && (AllTidy(part) ==> AllTidy(Over(s, level, part)))
  {
    if level > 0 { OverTidy(s.below, level - 1, part); }
  }

  lemma StepTidy(s: Stack, op: Op)
    requires AllTidy(s) && Enabled(s, op)
    ensures AllTidy(Apply(s, op))
  {
    match op
    case Read(level, id) => ReadTidy(s, level, id);
    case Uncache(level, id) => ReadTidy(s, level, id);
    case Modify(level, _, id, coins) =>
      AtCache(s, level);
      OverTidy(s, level, Modified(At(s, level), id, coins));
      ModifyTidy(At(s, level), id, coins, false);
    case ModifyNew(level, _, id, coinbase, coins) =>
      AtCache(s, level);
      OverTidy(s, level, ModifiedNew(At(s, level), id, coinbase, coins));
      ModifyTidy(At(s, level), id, coins, coinbase);
    case Flush(level) => FlushTidy(s, level);
    case Push =>
    case Pop =>
  }

  /** Through every run from tidy coins, HaveCoins is true exactly for transactions with an unspent output. */
  lemma {:induction false} RunHave(s: Stack, ops: seq<Op>, t: Txid)
    requires AllTidy(s) && Feasible(s, ops)
    ensures AllTidy(After(s, ops)) && (Have(After(s, ops), t) <==> t in Utxos(After(s, ops)))
    decreases |ops|
  {
    hide AllTidy, Apply;
    if ops == [] {
      HaveExact(s, t);
    } else {
      StepTidy(s, ops[0]);
      RunHave(Apply(s, ops[0]), ops[1..], t);
    }
  }
}
