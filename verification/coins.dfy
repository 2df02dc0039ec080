/** The unspent outputs of transactions, and caches stacked over a database of them
  * (src/coins.h, src/coins.cpp), as values.
  *
  * `Utxos` is what a stack means: a flat map from transaction id to coins with an unspent
  * output. Pruned coins and no coins at all mean the same, as in operator== of CCoins.
  */
module Coins {
  import opened Options

  type Txid(==, !new)

  datatype TxOut = TxOut(nValue: int, script: seq<nat>)

  const NULL_OUT := TxOut(-1, [])

  predicate IsNull(out: TxOut) { out.nValue == -1 }

  datatype Coins = Coins(fCoinBase: bool, fCoinStake: bool, vout: seq<TxOut>, nHeight: int, nVersion: int, nTime: nat)

  const NO_COINS := Coins(false, false, [], 0, 0, 0)

  predicate IsAvailable(c: Coins, nPos: nat) {
    nPos < |c.vout| && !IsNull(c.vout[nPos])
  }

  /** Nothing is unspent. */
  predicate Pruned(c: Coins) {
    forall n :: 0 <= n < |c.vout| ==> IsNull(c.vout[n])
  }

  /** No spent outputs at the end. */
  predicate Tidy(c: Coins) {
    c.vout == [] || !IsNull(c.vout[|c.vout| - 1])
  }

  function Trimmed(vout: seq<TxOut>): seq<TxOut> {
    if vout != [] && IsNull(vout[|vout| - 1]) then Trimmed(vout[..|vout| - 1]) else vout
  }

  function Cleaned(c: Coins): Coins {
    c.(vout := Trimmed(c.vout))
  }

  /** Cleaning drops spent outputs at the end and nothing else. */
  lemma {:induction false} CleanedSame(c: Coins)
    ensures Tidy(Cleaned(c))
    ensures forall n: nat :: IsAvailable(Cleaned(c), n) <==> IsAvailable(c, n)
    ensures Cleaned(c).vout <= c.vout
    ensures Pruned(Cleaned(c)) <==> Pruned(c)
    ensures Tidy(c) ==> Cleaned(c) == c
    decreases |c.vout|
  {
    if c.vout != [] && IsNull(c.vout[|c.vout| - 1]) {
      var d := c.(vout := c.vout[..|c.vout| - 1]);
      CleanedSame(d);
      assert Cleaned(c) == Cleaned(d);
    }
  }

  /** Cleanup: drop spent outputs at the end. */
  method Cleanup(c: Coins) returns (r: Coins)
    ensures r == Cleaned(c)
  {
    var vout := c.vout;
    while |vout| > 0 && IsNull(vout[|vout| - 1])
      invariant Trimmed(vout) == Trimmed(c.vout)
    {
      vout := vout[..|vout| - 1];
    }
    r := c.(vout := vout);
  }

  /** Spend: mark one output spent, if it is there and unspent. */
  method Spend(c: Coins, nPos: nat) returns (ok: bool, r: Coins)
    ensures ok <==> IsAvailable(c, nPos)
    ensures !ok ==> r == c
    ensures ok ==> Tidy(r) && forall n: nat :: IsAvailable(r, n) <==> n != nPos && IsAvailable(c, n)
    ensures r == c.(vout := r.vout) && forall n: nat :: IsAvailable(r, n) ==> n < |c.vout| && r.vout[n] == c.vout[n]
  {
    if nPos >= |c.vout| || IsNull(c.vout[nPos]) {
      return false, c;
    }
    var spent := c.(vout := c.vout[nPos := NULL_OUT]);
    CleanedSame(spent);
    r := Cleanup(spent);
    ok := true;
  }

  /** IsPruned. */
  method IsPruned(c: Coins) returns (pruned: bool)
    ensures pruned <==> Pruned(c)
  {
    for i := 0 to |c.vout|
      invariant forall n :: 0 <= n < i ==> IsNull(c.vout[n])
    {
      if !IsNull(c.vout[i]) {
        return false;
      }
    }
    return true;
  }

  // ----- Stacks -----

  /** CCoinsCacheEntry. */
  datatype Entry = Entry(coins: Coins, isDirty: bool, isFresh: bool)

  type Entries = map<Txid, Entry>

  /** A database, or a cache over something below it. */
  datatype Stack = Database(records: map<Txid, Coins>) | Cache(entries: Entries, below: Stack)

  /** What GetCoins finds. */
  function Found(s: Stack, t: Txid): Option<Coins> {
    match s
    case Database(records) => if t in records then Some(records[t]) else None
    case Cache(entries, below) => if t in entries then Some(entries[t].coins) else Found(below, t)
  }

  function Unpruned(found: Option<Coins>): Option<Coins> {
    if found.Some? && Pruned(found.value) then None else found
  }

  /** The coins a transaction has left in this view. */
  function Left(s: Stack, t: Txid): Option<Coins> {
    Unpruned(Found(s, t))
  }

  /** The flat map of unspent outputs that a stack stands for. */
  ghost function Utxos(s: Stack): map<Txid, Coins> {
    map t | t in Ids(s) && Left(s, t).Some? :: Left(s, t).value
  }

  ghost function Ids(s: Stack): set<Txid> {
    match s
    case Database(records) => records.Keys
    case Cache(entries, below) => entries.Keys + Ids(below)
  }

  lemma {:induction false} FoundIn(s: Stack, t: Txid)
    ensures Found(s, t).Some? <==> t in Ids(s)
  {
    match s
    case Database(_) =>
    case Cache(_, below) => FoundIn(below, t);
  }

  lemma UtxosAt(s: Stack, t: Txid)
    ensures Left(s, t) == if t in Utxos(s) then Some(Utxos(s)[t]) else None
  {
    FoundIn(s, t);
  }

  /** Two stacks mean the same map when they show the same for every id. */
  lemma SameUtxos(a: Stack, b: Stack)
    requires forall t :: Left(a, t) == Left(b, t)
    ensures Utxos(a) == Utxos(b)
  {
    forall t ensures t in Utxos(a) <==> t in Utxos(b) { UtxosAt(a, t); UtxosAt(b, t); }
    forall t | t in Utxos(a) ensures Utxos(a)[t] == Utxos(b)[t] { UtxosAt(a, t); UtxosAt(b, t); }
  }

  /** A clean entry agrees with the view below, and a fresh one has nothing there. */
  ghost predicate FlagsMeanAt(e: Entry, below: Stack, t: Txid) {
    && (!e.isDirty ==> Unpruned(Some(e.coins)) == Left(below, t))
    && (e.isFresh ==> Left(below, t) == None)
  }

  ghost predicate FlagsMean(entries: Entries, below: Stack) {
    forall t :: t in entries ==> FlagsMeanAt(entries[t], below, t)
  }

  /** The flags mean what they say at every level. */
  ghost predicate Sound(s: Stack) {
    s.Cache? ==> FlagsMean(s.entries, s.below) && Sound(s.below)
  }

  // ----- Reading -----

  /** FetchCoins: what is read is kept in every cache on the way. */
  function Fetched(s: Stack, t: Txid): Stack {
    match s
    case Database(_) => s
    case Cache(entries, below) =>
      if t in entries then s
      else if Found(below, t) == None then Cache(entries, Fetched(below, t))
      else Cache(entries[t := FetchedEntry(Found(below, t).value)], Fetched(below, t))
  }

  function FetchedEntry(c: Coins): Entry {
    Entry(c, false, Pruned(c))
  }

  lemma {:induction false} FetchedSame(s: Stack, t: Txid, u: Txid)
    ensures Found(Fetched(s, t), u) == Found(s, u)
  {
    match s
    case Database(_) =>
    case Cache(entries, below) => FetchedSame(below, t, u);
  }

  /** Flags keep their meaning when the view below shows the same as before. */
  lemma SameBelow(entries: Entries, below: Stack, below': Stack)
    requires FlagsMean(entries, below) && forall t :: Left(below', t) == Left(below, t)
    ensures FlagsMean(entries, below')
  {
  }

  lemma {:induction false} FetchedSound(s: Stack, t: Txid)
    requires Sound(s)
    ensures Sound(Fetched(s, t))
  {
    if s.Cache? && t !in s.entries {
      FetchedSound(s.below, t);
      forall u ensures Left(Fetched(s.below, t), u) == Left(s.below, u) { FetchedSame(s.below, t, u); }
      SameBelow(s.entries, s.below, Fetched(s.below, t));
    }
  }

  /** Reading changes nothing that can be seen. */
  lemma ReadKeeps(s: Stack, t: Txid)
    requires Sound(s)
    ensures Sound(Fetched(s, t)) && Utxos(Fetched(s, t)) == Utxos(s)
  {
    FetchedSound(s, t);
    forall u ensures Left(Fetched(s, t), u) == Left(s, u) { FetchedSame(s, t, u); }
    SameUtxos(Fetched(s, t), s);
  }

  // ----- Forgetting what is unmodified -----

  function Uncached(s: Stack, t: Txid): Stack {
    if s.Cache? && t in s.entries && !s.entries[t].isDirty && !s.entries[t].isFresh
    then s.(entries := s.entries - {t}) else s
  }

  lemma UncacheKeeps(s: Stack, t: Txid)
    requires Sound(s)
    ensures Sound(Uncached(s, t)) && Utxos(Uncached(s, t)) == Utxos(s)
  {
    var s' := Uncached(s, t);
    forall u ensures Left(s', u) == Left(s, u) {
      if s.Cache? && u in s.entries { assert FlagsMeanAt(s.entries[u], s.below, u); }
    }
    SameUtxos(s', s);
  }

  /** What was read stays in the cache, unmodified; and it is fresh exactly if the view below has nothing left. */
  lemma ReadCached(s: Stack, t: Txid)
    requires s.Cache? && t !in s.entries
    ensures t in Fetched(s, t).entries <==> Found(s, t).Some?
    ensures Found(s, t).Some? ==>
              Fetched(s, t).entries[t] == Entry(Found(s, t).value, false, t !in Utxos(s.below))
  {
    UtxosAt(s.below, t);
  }

  /** Uncaching undoes a read of coins that are left, and forgets nothing that was modified. */
  lemma UncacheUndoes(s: Stack, t: Txid)
    requires s.Cache?
    ensures t !in s.entries && t in Utxos(s) ==> Uncached(Fetched(s, t), t).entries == s.entries
    ensures Uncached(s, t).entries == s.entries || Uncached(s, t).entries == s.entries - {t}
    ensures t in s.entries ==> (t in Uncached(s, t).entries <==> s.entries[t].isDirty || s.entries[t].isFresh)
  {
    UtxosAt(s, t);
    UtxosAt(s.below, t);
  }

  // ----- Modifying -----

  /** The entry that ModifyCoins hands out, over what the view below has. */
  function Opened(entries: Entries, found: Option<Coins>, t: Txid): Entry {
    if t in entries then entries[t].(isDirty := true)
    else match found
         case None => Entry(NO_COINS, true, true)
         case Some(c) => Entry(c, true, Pruned(c))
  }

  function OpenModifier(s: Stack, t: Txid): Stack
    requires s.Cache?
  {
    Cache(s.entries[t := Opened(s.entries, Found(s.below, t), t)],
          if t in s.entries then s.below else Fetched(s.below, t))
  }

  /** The entry that ModifyNewCoins hands out: emptied, and fresh unless for a coinbase. */
  function OpenedNew(entries: Entries, t: Txid, coinbase: bool): Entry {
    Entry(NO_COINS, true, !coinbase || (t in entries && entries[t].isFresh))
  }

  function OpenNewModifier(s: Stack, t: Txid, coinbase: bool): Stack
    requires s.Cache?
  {
    s.(entries := s.entries[t := OpenedNew(s.entries, t, coinbase)])
  }

  /** The end of a modifier that leaves c in its entry. */
  function CloseModifier(s: Stack, t: Txid, c: Coins): Stack
    requires s.Cache? && t in s.entries
  {
    var e := s.entries[t].(coins := Cleaned(c));
    if e.isFresh && Pruned(e.coins) then s.(entries := s.entries - {t}) else s.(entries := s.entries[t := e])
  }

  lemma OpenKeeps(s: Stack, t: Txid)
    requires Sound(s) && s.Cache?
    ensures Sound(OpenModifier(s, t)) && Utxos(OpenModifier(s, t)) == Utxos(s)
    ensures OpenModifier(s, t).entries[t].isDirty
  {
    var s' := OpenModifier(s, t);
    FetchedSound(s.below, t);
    forall u ensures Left(s'.below, u) == Left(s.below, u) { FetchedSame(s.below, t, u); }
    SameBelow(s.entries, s.below, s'.below);
    assert FlagsMeanAt(s'.entries[t], s'.below, t) by {
      if t in s.entries { assert FlagsMeanAt(s.entries[t], s.below, t); }
    }
    forall u ensures Left(s', u) == Left(s, u) {}
    SameUtxos(s', s);
  }

  /** A modifier over coins that are not cached is fresh exactly if the view below has none left. */
  lemma OpenFresh(s: Stack, t: Txid)
    requires s.Cache? && t !in s.entries
    ensures OpenModifier(s, t).entries[t].isFresh <==> t !in Utxos(s.below)
  {
    UtxosAt(s.below, t);
  }

  /** Coins that are created and spent above a view that has none of them leave no entry behind. */
  lemma NoTrace(s: Stack, t: Txid, made: Coins, spent: Coins)
    requires s.Cache? && t !in s.entries && t !in Utxos(s.below) && !Pruned(made) && Pruned(spent)
    ensures var made' := CloseModifier(OpenNewModifier(s, t, false), t, made);
            CloseModifier(OpenModifier(made', t), t, spent).entries == s.entries
    ensures CloseModifier(OpenModifier(s, t), t, spent).entries == s.entries
  {
    CleanedSame(made);
    CleanedSame(spent);
    UtxosAt(s.below, t);
  }

  /** A modifier for new coins needs the view below to have none left, unless for a coinbase. */
  lemma OpenNewKeeps(s: Stack, t: Txid, coinbase: bool)
    requires Sound(s) && s.Cache? && (coinbase || t !in Utxos(s.below))
    ensures Sound(OpenNewModifier(s, t, coinbase)) && Utxos(OpenNewModifier(s, t, coinbase)) == Utxos(s) - {t}
    ensures OpenNewModifier(s, t, coinbase).entries[t].isDirty
  {
    var s' := OpenNewModifier(s, t, coinbase);
    UtxosAt(s.below, t);
    assert FlagsMeanAt(s'.entries[t], s'.below, t) by {
      if t in s.entries { assert FlagsMeanAt(s.entries[t], s.below, t); }
    }
    UtxosExcept(s, s', t);
  }

  /** That demand is exactly what keeps the flags honest. */
  lemma OpenNewExact(s: Stack, t: Txid, coinbase: bool)
    requires Sound(s) && s.Cache?
    ensures Sound(OpenNewModifier(s, t, coinbase)) <==> coinbase || t !in Utxos(s.below)
  {
    UtxosAt(s.below, t);
    if coinbase || t !in Utxos(s.below) {
      OpenNewKeeps(s, t, coinbase);
    } else {
      var s' := OpenNewModifier(s, t, coinbase);
      assert !FlagsMeanAt(s'.entries[t], s'.below, t);
    }
  }

  /** Changing one id changes the map there only. */
  lemma UtxosExcept(s: Stack, s': Stack, t: Txid)
    requires forall u :: u != t ==> Left(s', u) == Left(s, u)
    ensures Utxos(s') == if Left(s', t).Some? then Utxos(s)[t := Left(s', t).value] else Utxos(s) - {t}
  {
    var m := if Left(s', t).Some? then Utxos(s)[t := Left(s', t).value] else Utxos(s) - {t};
    forall u ensures u in Utxos(s') <==> u in m { UtxosAt(s, u); UtxosAt(s', u); }
    forall u | u in m ensures Utxos(s')[u] == m[u] { UtxosAt(s, u); UtxosAt(s', u); }
  }

  /** What the client left, cleaned, is what the view shows from then on; nothing else changes. */
  lemma CloseKeeps(s: Stack, t: Txid, c: Coins)
    requires Sound(s) && s.Cache? && t in s.entries && s.entries[t].isDirty
    ensures Sound(CloseModifier(s, t, c))
    ensures Utxos(CloseModifier(s, t, c)) == if Pruned(c) then Utxos(s) - {t} else Utxos(s)[t := Cleaned(c)]
  {
    CleanedSame(c);
    var s' := CloseModifier(s, t, c);
    assert FlagsMeanAt(s.entries[t], s.below, t);
    forall u | u in s'.entries ensures FlagsMeanAt(s'.entries[u], s'.below, u) {
      assert FlagsMeanAt(s.entries[u], s.below, u);
    }
    UtxosExcept(s, s', t);
  }

  // ----- Writing a cache to the view below it -----

  /** What a modified entry of the child does to the entry of a cache below it. */
  function Merged(ours: Option<Entry>, e: Entry): Option<Entry> {
    match ours
    case None => if e.isFresh && Pruned(e.coins) then None else Some(Entry(e.coins, true, e.isFresh))
    case Some(us) => if us.isFresh && Pruned(e.coins) then None else Some(Entry(e.coins, true, us.isFresh))
  }

  function EntryAt(entries: Entries, t: Txid): Option<Entry> {
    if t in entries then Some(entries[t]) else None
  }

  function MergedAt(entries: Entries, child: Entries, t: Txid): Option<Entry> {
    if t in child && child[t].isDirty then Merged(EntryAt(entries, t), child[t]) else EntryAt(entries, t)
  }

  function MergedEntries(entries: Entries, child: Entries): Entries {
    map t | t in entries.Keys + child.Keys && MergedAt(entries, child, t).Some? :: MergedAt(entries, child, t).value
  }

  /** The same for a database. */
  function RecordAt(records: map<Txid, Coins>, child: Entries, t: Txid): Option<Coins> {
    if t in child && child[t].isDirty then Unpruned(Some(child[t].coins))
    else if t in records then Some(records[t]) else None
  }

  function MergedRecords(records: map<Txid, Coins>, child: Entries): map<Txid, Coins> {
    map t | t in records.Keys + child.Keys && RecordAt(records, child, t).Some? :: RecordAt(records, child, t).value
  }

  /** BatchWrite. */
  function Written(s: Stack, child: Entries): Stack {
    match s
    case Database(records) => Database(MergedRecords(records, child))
    case Cache(entries, below) => Cache(MergedEntries(entries, child), below)
  }

  /** Flush. */
  function Flushed(s: Stack): Stack
    requires s.Cache?
  {
    Cache(map[], Written(s.below, s.entries))
  }

  /** After the write, the view below shows for t what the child showed. */
  lemma WrittenLeft(below: Stack, child: Entries, t: Txid)
    requires Sound(below) && FlagsMean(child, below)
    ensures Left(Written(below, child), t) == Left(Cache(child, below), t)
  {
    if t in child { assert FlagsMeanAt(child[t], below, t); }
    match below
    case Database(records) =>
      assert Found(Written(below, child), t) == RecordAt(records, child, t);
      assert Found(below, t) == if t in records then Some(records[t]) else None;
    case Cache(entries, rest) =>
      var merged := MergedEntries(entries, child);
      assert EntryAt(merged, t) == MergedAt(entries, child, t);
      assert Found(Written(below, child), t) == if t in merged then Some(merged[t].coins) else Found(rest, t);
      assert Found(below, t) == if t in entries then Some(entries[t].coins) else Found(rest, t);
      if t in entries { assert FlagsMeanAt(entries[t], rest, t); }
  }

  /** An entry that the write leaves in the cache below has flags that mean what they say. */
  lemma MergedMeans(below: Stack, child: Entries, t: Txid)
    requires Sound(below) && FlagsMean(child, below) && below.Cache? && t in MergedEntries(below.entries, child)
    ensures FlagsMeanAt(MergedEntries(below.entries, child)[t], below.below, t)
  {
    if t in below.entries { assert FlagsMeanAt(below.entries[t], below.below, t); }
    if t in child { assert FlagsMeanAt(child[t], below, t); }
  }

  lemma WrittenSound(below: Stack, child: Entries)
    requires Sound(below) && FlagsMean(child, below)
    ensures Sound(Written(below, child))
  {
    if below.Cache? {
      var merged := MergedEntries(below.entries, child);
      forall t | t in merged ensures FlagsMeanAt(merged[t], below.below, t) { MergedMeans(below, child, t); }
    }
  }

  /** Flushing leaves what the cache shows unchanged and makes the view below show exactly that. */
  lemma FlushKeeps(s: Stack)
    requires Sound(s) && s.Cache?
    ensures Sound(Flushed(s)) && Utxos(Flushed(s)) == Utxos(s)
    ensures Utxos(Flushed(s).below) == Utxos(s)
  {
    WrittenSound(s.below, s.entries);
    forall t ensures Left(Flushed(s).below, t) == Left(s, t) { WrittenLeft(s.below, s.entries, t); }
    SameUtxos(Flushed(s).below, s);
    SameUtxos(Flushed(s), s);
  }

  /** Coins spent above a cache where they were created leave no entry there when they are flushed. */
  lemma FlushNoTrace(s: Stack, t: Txid)
    requires s.Cache? && s.below.Cache? && t in s.entries && s.entries[t].isDirty && Pruned(s.entries[t].coins)
    ensures t in Flushed(s).below.entries <==>
              if t in s.below.entries then !s.below.entries[t].isFresh else !s.entries[t].isFresh
  {
  }

  // ----- HaveCoins -----

  /** HaveCoins asks whether any output is recorded, spent or not. */
  function Have(s: Stack, t: Txid): bool {
    Found(s, t).Some? && Found(s, t).value.vout != []
  }

  ghost predicate AllTidy(s: Stack) {
    match s
    case Database(records) => forall t :: t in records ==> Tidy(records[t])
    case Cache(entries, below) => (forall t :: t in entries ==> Tidy(entries[t].coins)) && AllTidy(below)
  }

  lemma {:induction false} FoundTidy(s: Stack, t: Txid)
    requires AllTidy(s) && Found(s, t).Some?
    ensures Tidy(Found(s, t).value)
  {
    if s.Cache? && t !in s.entries { FoundTidy(s.below, t); }
  }

  /** Never false for a transaction with unspent outputs; and exact where spent outputs at the end have been dropped. */
  lemma HaveExact(s: Stack, t: Txid)
    ensures t in Utxos(s) ==> Have(s, t)
    ensures AllTidy(s) ==> (Have(s, t) <==> t in Utxos(s))
  {
    UtxosAt(s, t);
    if AllTidy(s) && Found(s, t).Some? { FoundTidy(s, t); }
  }

  lemma {:induction false} FetchedTidy(s: Stack, t: Txid)
    requires AllTidy(s)
    ensures AllTidy(Fetched(s, t))
  {
    if s.Cache? && t !in s.entries {
      FetchedTidy(s.below, t);
      if Found(s.below, t).Some? { FoundTidy(s.below, t); }
    }
  }
}
