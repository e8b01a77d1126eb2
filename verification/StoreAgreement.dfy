/** One chain saved to both header stores: they cannot be told apart. */
module StoreAgreement {
  import opened ByteStrings
  import opened Hashing
  import opened Stores
  import opened Chain

  ghost predicate EpochsFit(offers: seq<Header>) {
    forall i :: 0 <= i < |offers| ==> offers[i].epoch < TWO64
  }

  /** The chain saves into the first store; the second is given the same saves. */
  ghost predicate Mirrored(chain: ChainManager, store: InMemory, db: LevelDb)
    reads chain, chain.store, store, db
  {
    chain.Valid() && chain.store == store && chain.OwnStore() && db.Valid() && db.saves == store.hdrs
  }

  /** One offer to the chain, passed on to the other store if it was saved. */
  method OfferAndMirror(chain: ChainManager, store: InMemory, db: LevelDb, h: Header, saveOk: bool)
    requires Mirrored(chain, store, db) && h.epoch < TWO64
    modifies chain, store, db
    ensures Mirrored(chain, store, db) && chain.log == Extend(chain.hash, old(chain.log), h)
  {
    var r, saved := chain.AddCheckpoint(h, saveOk);
    if saved { db.SaveHeader(ToStored(r.header)); }
  }

  /** What the two stores answer. */
  datatype Answers = Answers(found: Option<StoredHeader>, listed: seq<StoredHeader>, latest: Option<StoredHeader>)

  method AskBoth(chain: ChainManager, store: InMemory, db: LevelDb, epoch: nat) returns (inMemory: Answers, levelDb: Answers)
    requires Mirrored(chain, store, db) && epoch < TWO64
    ensures inMemory == levelDb && inMemory.listed == store.hdrs
  {
    assert Increasing(store.hdrs);
    var found1 := store.GetHeader(epoch);
    var listed1 := store.ListHeaders();
    var latest1 := store.LoadLatestHeader();
    var found2 := db.GetHeader(epoch);
    var listed2 := db.ListHeaders();
    var latest2 := db.LoadLatestHeader();
    inMemory, levelDb := Answers(found1, listed1, latest1), Answers(found2, listed2, latest2);
  }

  /**
   * Whatever is offered to a chain over a fresh store, and whichever saves go through, a LevelDB store fed the same
   * saves answers every lookup, the listing and the latest header exactly as the in-memory store does.
   */
  method RunBothStores(hash: Hash, offers: seq<Header>, saveOk: nat -> bool, epoch: nat)
    returns (inMemory: Answers, levelDb: Answers, ghost log: seq<Header>)
    requires EpochsFit(offers) && epoch < TWO64
    ensures inMemory == levelDb && log == Replay(hash, offers)
  {
    var store := new InMemory();
    var db := new LevelDb();
    var chain := new ChainManager(hash, store);
    for i := 0 to |offers|
      invariant fresh(store) && fresh(db) && fresh(chain)
      invariant Mirrored(chain, store, db) && chain.hash == hash && chain.log == Replay(hash, offers[..i])
    {
      assert offers[..i + 1][..i] == offers[..i] && offers[..i + 1][i] == offers[i];
      OfferAndMirror(chain, store, db, offers[i], saveOk(i));
    }
    assert offers[..|offers|] == offers;
    log := chain.log;
    inMemory, levelDb := AskBoth(chain, store, db, epoch);
  }
}
