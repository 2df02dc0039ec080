/** The coin views as objects (src/coins.cpp:61-302, src/txdb.cpp:34-70): caches linked to the
  * cache or the database below them. Each method is tied to its function on stacks in Coins.
  */
module CoinsViews {
  import opened Coins
  import opened Options

  /** The database, as a flat map. */
  class CCoinsViewDB {
    var records: map<Txid, Coins>

    method GetCoins(txid: Txid) returns (found: Option<Coins>)
      ensures found == Found(Database(records), txid)
    {
      found := if txid in records then Some(records[txid]) else None;
    }

    method BatchWrite(mapCoins: Entries)
      modifies this
      ensures Database(records) == Written(Database(old(records)), mapCoins)
    {
      hide MergedRecords;
      ghost var before := records;
      var todo := mapCoins.Keys;
      NoneMerged(map[], before, mapCoins);
      while todo != {}
        invariant todo <= mapCoins.Keys
        invariant records == MergedRecords(before, mapCoins - todo)
        decreases |todo|
      {
        var it :| it in todo;
        var e := mapCoins[it];
        if e.isDirty {
          var pruned := IsPruned(e.coins);
          if pruned {
            records := records - {it};
          } else {
            records := records[it := e.coins];
          }
        }
        MergeRecord(before, mapCoins - todo, it, e);
        OneMore(mapCoins, todo, it);
        todo := todo - {it};
      }
      assert mapCoins - {} == mapCoins;
    }
  }

  lemma NoneMerged(entries: Entries, records: map<Txid, Coins>, child: Entries)
    ensures MergedEntries(entries, child - child.Keys) == entries
    ensures MergedRecords(records, child - child.Keys) == records
  {
    assert child - child.Keys == map[];
  }

  lemma OneMore(child: Entries, todo: set<Txid>, it: Txid)
    requires it in todo && it in child
    ensures it !in child - todo && child - (todo - {it}) == (child - todo)[it := child[it]]
  {
  }

  /** Writing one more entry. */
  lemma MergeRecord(records: map<Txid, Coins>, done: Entries, t: Txid, e: Entry)
    requires t !in done
    ensures MergedRecords(records, done[t := e]) ==
              if !e.isDirty then MergedRecords(records, done)
              else if Pruned(e.coins) then MergedRecords(records, done) - {t}
              else MergedRecords(records, done)[t := e.coins]
  {
    var done' := done[t := e];
    forall u | u != t ensures RecordAt(records, done', u) == RecordAt(records, done, u) {}
  }

  /** The same for a cache. */
  lemma MergeEntry(entries: Entries, done: Entries, t: Txid, e: Entry)
    requires t !in done
    ensures EntryAt(MergedEntries(entries, done), t) == EntryAt(entries, t)
    ensures MergedEntries(entries, done[t := e]) ==
              if !e.isDirty then MergedEntries(entries, done)
              else match Merged(EntryAt(entries, t), e)
                   case None => MergedEntries(entries, done) - {t}
                   case Some(m) => MergedEntries(entries, done)[t := m]
  {
    var done' := done[t := e];
    forall u | u != t ensures MergedAt(entries, done', u) == MergedAt(entries, done, u) {}
  }

  class CCoinsViewCache {
    /** The view below: another cache, or the database when there is none. */
    const base: CCoinsViewCache?
    const db: CCoinsViewDB
    ghost const height: nat
    ghost const Repr: set<CCoinsViewCache>
    var cacheCoins: Entries
    var hasModifier: bool

    /** The chain of caches, none of them twice. */
    ghost predicate Linked()
      decreases height
    {
      && (base == null ==> Repr == {this})
      && (base != null ==>
            base.height < height && base.db == db && base.Linked() && this !in base.Repr && Repr == {this} + base.Repr)
    }

    ghost function State(): Stack
      requires Linked()
      reads Repr, db
      decreases height
    {
      Cache(cacheCoins, if base == null then Database(db.records) else base.State())
    }

    constructor (db: CCoinsViewDB, base: CCoinsViewCache?)
      requires base != null ==> base.Linked() && base.db == db
      ensures Linked() && this.base == base && this.db == db && !hasModifier
      ensures State() == Cache(map[], if base == null then Database(db.records) else base.State())
    {
      this.base, this.db := base, db;
      height := if base == null then 0 else base.height + 1;
      Repr := if base == null then {this} else {this} + base.Repr;
      cacheCoins, hasModifier := map[], false;
    }

    /** The virtual call to the view below. */
    method BaseGetCoins(txid: Txid) returns (found: Option<Coins>)
      requires Linked()
      modifies (Repr - {this})`cacheCoins
      ensures found == Found(old(State().below), txid)
      ensures State() == old(State()).(below := Fetched(old(State().below), txid))
      decreases height, 0
    {
      if base == null {
        found := db.GetCoins(txid);
      } else {
        found := base.GetCoins(txid);
      }
    }

    /** FetchCoins and GetCoins: find coins here or below, and keep what was found below. */
    method GetCoins(txid: Txid) returns (found: Option<Coins>)
      requires Linked()
      modifies Repr`cacheCoins
      ensures State() == Fetched(old(State()), txid)
      ensures found == Found(old(State()), txid)
      decreases height, 1
    {
      if txid in cacheCoins {
        return Some(cacheCoins[txid].coins);
      }
      found := BaseGetCoins(txid);
      if found.None? {
        return;
      }
      var pruned := IsPruned(found.value);
      cacheCoins := cacheCoins[txid := Entry(found.value, false, pruned)];
    }

    /** Whether anything is recorded for a transaction. */
    method HaveCoins(txid: Txid) returns (have: bool)
      requires Linked()
      modifies Repr`cacheCoins
      ensures State() == Fetched(old(State()), txid)
      ensures have <==> Have(old(State()), txid)
    {
      var found := GetCoins(txid);
      have := found.Some? && found.value.vout != [];
    }

    /** Open an entry for modification. */
    method ModifyCoins(txid: Txid)
      requires Linked() && !hasModifier
      modifies Repr`cacheCoins, this`hasModifier
      ensures State() == OpenModifier(old(State()), txid) && hasModifier
    {
      if txid !in cacheCoins {
        var found := BaseGetCoins(txid);
        match found {
          case None =>
            cacheCoins := cacheCoins[txid := Entry(NO_COINS, false, true)];
          case Some(coins) =>
            var pruned := IsPruned(coins);
            cacheCoins := cacheCoins[txid := Entry(coins, false, pruned)];
        }
      }
      cacheCoins := cacheCoins[txid := cacheCoins[txid].(isDirty := true)];
      hasModifier := true;
    }

    /** Open an emptied entry for new coins. */
    method ModifyNewCoins(txid: Txid, coinbase: bool)
      requires Linked() && !hasModifier
      modifies this`cacheCoins, this`hasModifier
      ensures State() == OpenNewModifier(old(State()), txid, coinbase) && hasModifier
    {
      var e := if txid in cacheCoins then cacheCoins[txid] else Entry(NO_COINS, false, false);
      e := e.(coins := NO_COINS);
      if !coinbase {
        e := e.(isDirty := false, isFresh := true);
      }
      e := e.(isDirty := true);
      cacheCoins := cacheCoins[txid := e];
      hasModifier := true;
    }

    /** The end of a modifier whose client left `coins` in the entry. */
    method EndModifier(txid: Txid, coins: Coins)
      requires Linked() && hasModifier && txid in cacheCoins
      modifies this`cacheCoins, this`hasModifier
      ensures State() == CloseModifier(old(State()), txid, coins) && !hasModifier
    {
      hasModifier := false;
      var cleaned := Cleanup(coins);
      var pruned := IsPruned(cleaned);
      if cacheCoins[txid].isFresh && pruned {
        cacheCoins := cacheCoins - {txid};
      } else {
        cacheCoins := cacheCoins[txid := cacheCoins[txid].(coins := cleaned)];
      }
    }

    /** Forget an entry that carries no flag. */
    method Uncache(txid: Txid)
      requires Linked()
      modifies this`cacheCoins
      ensures State() == Uncached(old(State()), txid)
    {
      if txid in cacheCoins && !cacheCoins[txid].isDirty && !cacheCoins[txid].isFresh {
        cacheCoins := cacheCoins - {txid};
      }
    }

    /** Take over the modified entries of a cache above. */
    method BatchWrite(mapCoins: Entries)
      requires Linked() && !hasModifier
      modifies this`cacheCoins
      ensures State() == Written(old(State()), mapCoins)
    {
      hide MergedEntries, Merged;
      ghost var before := cacheCoins;
      var todo := mapCoins.Keys;
      NoneMerged(before, map[], mapCoins);
      while todo != {}
        invariant todo <= mapCoins.Keys
        invariant cacheCoins == MergedEntries(before, mapCoins - todo)
        decreases |todo|
      {
        var it :| it in todo;
        MergeEntry(before, mapCoins - todo, it, mapCoins[it]);
        OneMore(mapCoins, todo, it);
        WriteEntry(it, mapCoins[it]);
        todo := todo - {it};
      }
      assert mapCoins - {} == mapCoins;
    }

    /** The body of that loop. */
    method WriteEntry(it: Txid, e: Entry)
      modifies this`cacheCoins
      ensures cacheCoins == if !e.isDirty then old(cacheCoins)
                            else match Merged(EntryAt(old(cacheCoins), it), e)
                                 case None => old(cacheCoins) - {it}
                                 case Some(m) => old(cacheCoins)[it := m]
    {
      if e.isDirty {
        var pruned := IsPruned(e.coins);
        if it !in cacheCoins {
          if !(e.isFresh && pruned) {
            cacheCoins := cacheCoins[it := Entry(e.coins, true, e.isFresh)];
          }
        } else {
          if cacheCoins[it].isFresh && pruned {
            cacheCoins := cacheCoins - {it};
          } else {
            cacheCoins := cacheCoins[it := cacheCoins[it].(coins := e.coins, isDirty := true)];
          }
        }
      }
    }

    /** Push all modifications to the view below and start empty. */
    method Flush()
      requires Linked() && (base != null ==> !base.hasModifier) && !hasModifier
      modifies Repr`cacheCoins, db
      ensures State() == Flushed(old(State()))
    {
      if base == null {
        db.BatchWrite(cacheCoins);
      } else {
        base.BatchWrite(cacheCoins);
      }
      cacheCoins := map[];
    }
  }
}
