/**
 Many open files on one store: the entry points that take an open file do on the objects of `BlocksCache` what the
 operations of `PlainRuns` do on values, and nothing is seen through the other open files.
 */
module OpenFiles {
  import opened Bytes
  import opened StoreModel
  import opened StoreIntegrity
  import opened StoreRuns
  import opened StoreBuffers
  import opened StorePasses
  import opened BlocksCache
  import opened PlainRuns

  /** `DedupFS`, with the open files that the kernel holds the addresses of. */
  class DedupFS {
    const store: BlockStore
    var open: map<nat, FileInfo>

    /** No file is open at first. */
    constructor (store: BlockStore)
      ensures this.store == store && open == map[]
    {
      this.store, open := store, map[];
    }

    /** All entries of all open files. */
    ghost function AllEntries(): set<FileBlock>
      reads this, open.Values
    {
      set hd, b | hd in open && b in open[hd].blocks.Values :: b
    }

    /** The block tables are sound, and no two open files share a table or an entry. */
    ghost predicate Apart()
      reads this, store`blocks, open.Values, AllEntries()
    {
      && store.Valid()
      && (forall hd :: hd in open ==> store.Table(open[hd]))
      && forall a, b :: a in open && b in open && a != b ==>
           open[a] != open[b] && open[a].blocks.Values !! open[b].blocks.Values
    }

    ghost function Handles(): map<nat, Handle>
      reads this, store`blocks, open.Values, AllEntries()
    {
      map hd | hd in open :: store.HandleOf(open[hd])
    }

    /** What the objects stand for. */
    ghost function Value(): World
      reads this, store, store.blocks.Values, open.Values, AllEntries()
    {
      World(store.State(), Handles())
    }

    ghost predicate Ok()
      reads this, store, store.blocks.Values, open.Values, AllEntries()
    {
      Apart() && WorldOk(store.config, Value())
    }

    /** Neither the file nor its entries have changed. */
    static twostate predicate Untouched(f: FileInfo)
      reads f, f.blocks.Values
    {
      unchanged(f) && forall n :: n in f.blocks ==> unchanged(f.blocks[n])
    }

    /**
     An operation through one open file that only adds blocks to the cache, and only new entries to its own
     table, leaves all others what they are.
     */
    twostate lemma OthersUnseen(hd: nat)
      requires old(Apart()) && unchanged(this) && hd in open
      requires store.Valid() && store.Table(open[hd])
      requires forall d :: d in open && d != hd ==> Untouched(open[d])
      requires BlockStore.Extends(old(store.blocks), store.blocks) && fresh(store.blocks.Values - old(store.blocks.Values))
      requires fresh(open[hd].blocks.Values - old(open[hd].blocks.Values))
      ensures Apart() && Handles() == old(Handles())[hd := store.HandleOf(open[hd])]
    {
      forall d | d in open && d != hd
        ensures store.HandleOf(open[d]) == old(store.HandleOf(open[d])) && store.Table(open[d])
        ensures open[d].blocks.Values !! open[hd].blocks.Values
      {
        store.OtherHandles(open[d]);
      }
    }

    /** What a call through one of the open files starts from. */
    lemma OpenFile(hd: nat)
      requires Ok() && hd in open
      ensures store.Valid() && store.Table(open[hd]) && Integrity(store.config, store.State())
      ensures HandleOk(store.State(), store.HandleOf(open[hd]))
      ensures Value() == World(store.State(), Handles()) && Handles().Keys == open.Keys
      ensures Handles()[hd] == store.HandleOf(open[hd]) && store.HandleOf(open[hd]).size == open[hd].size
      ensures forall d :: d in open && d != hd ==> open[d] != open[hd] && open[d].blocks.Values !! open[hd].blocks.Values
    {
      hide Integrity, HandleOk;
      assert Handles()[hd] == store.HandleOf(open[hd]);
    }

    lemma KeepsOk(w: World, op: Op)
      requires WorldOk(store.config, w)
      ensures var r := Perform(store.config, w, op);
              r.Done? ==> WorldOk(store.config, r.value.0)
    {
      hide Perform, WorldOk;
      if Perform(store.config, w, op).Done? {
        PerformKeepsIntegrity(store.config, w, op);
      }
    }

    /** `Write` */
    method Write(hd: nat, buf: seq<Byte>, offset: int, now: int) returns (ok: bool)
      requires Ok() && hd in open && 0 <= offset && |buf| > 0
      modifies store, store.blocks.Values, open[hd], open[hd].blocks.Values
      ensures Apart() && (ok ==> Ok())
      ensures var r := old(Perform(store.config, Value(), OpWrite(hd, buf, offset, now)));
              (ok <==> r.Done?) && (ok ==> (Value(), []) == r.value)
    {
      hide WriteBuf, Integrity, HandleOk, BlockStore.State, BlockStore.HandleOf, BlockStore.Table, BlockStore.Valid, Perform,
           WorldOk, Apart, Handles, AllEntries, BlockStore.Extends;
      OpenFile(hd);
      PerformWrite(store.config, Value(), hd, buf, offset, now);
      KeepsOk(Value(), OpWrite(hd, buf, offset, now));
      var factSize;
      ok, factSize := store.WriteBuf(open[hd], buf, offset, now);
      OthersUnseen(hd);
    }

    /** `Read` */
    method Read(hd: nat, size: int, offset: int, now: int) returns (ok: bool, bytes: seq<Byte>)
      requires Ok() && hd in open && 0 <= size && 0 <= offset <= open[hd].size
      modifies store`blocks, store.blocks.Values, open[hd], open[hd].blocks.Values
      ensures Apart() && (ok ==> Ok())
      ensures var r := old(Perform(store.config, Value(), OpRead(hd, size, offset, now)));
              (ok <==> r.Done?) && (ok ==> (Value(), bytes) == r.value)
    {
      hide ReadBuf, Integrity, HandleOk, BlockStore.State, BlockStore.HandleOf, BlockStore.Table, BlockStore.Valid, Perform,
           WorldOk, Apart, Handles, AllEntries, BlockStore.Extends;
      OpenFile(hd);
      PerformRead(store.config, Value(), hd, size, offset, now);
      KeepsOk(Value(), OpRead(hd, size, offset, now));
      ok, bytes := store.ReadBuf(open[hd], size, offset, now);
      OthersUnseen(hd);
    }

    /** `Ftruncate` */
    method Ftruncate(hd: nat, newSize: int) returns (ok: bool, r: int)
      requires Ok() && hd in open
      modifies store`sizes, store`rows, store`fileBlocks, store.blocks.Values, open[hd]
      ensures Apart() && (ok ==> Ok())
      ensures newSize < 0 ==> ok && r == -22 && Value() == old(Value())
      ensures newSize >= 0 ==>
        var t := old(Perform(store.config, Value(), OpTruncate(hd, newSize)));
        (ok <==> t.Done?) && (ok ==> r == 0 && (Value(), []) == t.value)
    {
      hide Truncate, Integrity, HandleOk, BlockStore.State, BlockStore.HandleOf, BlockStore.Table, BlockStore.Valid, Perform,
           WorldOk, Apart, Handles, AllEntries, BlockStore.Extends;
      OpenFile(hd);
      ghost var w := Value();
      if newSize >= 0 {
        PerformTruncate(store.config, w, hd, newSize);
        KeepsOk(w, OpTruncate(hd, newSize));
      }
      ok, r := store.Truncate(open[hd], newSize);
      OthersUnseen(hd);
      assert newSize < 0 ==> Value() == w;
    }

    lemma NewFile(f: FileInfo)
      requires f.blocks == map[]
      ensures store.HandleOf(f) == Handle(f.ino, f.size, map[]) && store.Table(f)
    {
    }

    /** A new file with an empty table shares nothing with the others. */
    twostate lemma OpenedApart(hd: nat)
      requires old(Apart()) && unchanged(store`blocks)
      requires hd in open && open == old(open)[hd := open[hd]] && fresh(open[hd]) && open[hd].blocks == map[]
      requires forall d :: d in old(open) ==> Untouched(old(open)[d])
      ensures Apart() && Handles() == old(Handles())[hd := Handle(open[hd].ino, open[hd].size, map[])]
    {
      hide BlockStore.HandleOf, BlockStore.Table;
      NewFile(open[hd]);
      forall d | d in open && d != hd
        ensures store.HandleOf(open[d]) == old(store.HandleOf(open[d])) && store.Table(open[d])
      {
        store.OtherHandles(open[d]);
      }
    }

    /** `Open`, once the row is found: a new object for the file. */
    method Open(hd: nat, f: FileId)
      requires Ok() && f in store.sizes
      modifies this`open
      ensures Ok()
      ensures Perform(store.config, old(Value()), OpOpen(hd, f)) == Done((Value(), []))
    {
      hide Integrity, HandleOk, WorldOk, Perform, Apart, Handles, BlockStore.HandleOf, BlockStore.Table, BlockStore.Valid,
           AllEntries;
      PerformOpen(store.config, Value(), hd, f);
      KeepsOk(Value(), OpOpen(hd, f));
      var fi := new FileInfo(f, store.sizes[f]);
      open := open[hd := fi];
      OpenedApart(hd);
      SameState();
    }

    twostate lemma SameState()
      requires unchanged(store) && forall n :: n in store.blocks ==> unchanged(store.blocks[n])
      ensures store.State() == old(store.State())
    {
      forall n | n in store.blocks
        ensures store.blocks[n].Fields() == old(store.blocks[n].Fields())
      {
      }
      assert store.Cache() == old(store.Cache());
    }

    /** A pass lets pointers of all open files expire alike. */
    twostate lemma PassSeenByAll()
      requires old(Apart()) && unchanged(this) && store.Valid() && store.blocks.Keys <= old(store.blocks.Keys)
      requires forall s :: s in store.blocks ==> store.blocks[s] == old(store.blocks)[s]
      requires forall d :: d in open ==> Untouched(open[d])
      ensures Apart()
      ensures Handles() == ExpireAll(old(Handles()), old(store.blocks.Keys) - store.blocks.Keys)
    {
      hide Expire;
      forall d | d in open
        ensures store.Table(open[d])
        ensures store.HandleOf(open[d]) == Expire(old(store.HandleOf(open[d])), old(store.blocks.Keys) - store.blocks.Keys)
      {
        store.OtherHandlesExpire(open[d]);
      }
    }

    lemma ValueParts()
      ensures Value() == World(store.State(), Handles())
    {
    }

    lemma StoreOk()
      requires Ok()
      ensures Apart() && WorldOk(store.config, Value())
      ensures store.Valid() && Integrity(store.config, store.State()) && store.State().cache == store.Cache()
      ensures Value() == World(store.State(), Handles()) && Handles().Keys == open.Keys
    {
    }

    /** One pass of the writer thread over the store. */
    method PassOver(now: int) returns (repeat: bool, ghost evicted: set<int>)
      requires store.Valid() && Integrity(store.config, store.State())
      modifies store`blocks, store`storage, store.blocks.Values
      ensures store.Valid() && store.blocks == old(store.blocks) - evicted && evicted <= old(store.blocks.Keys)
      ensures store.State() == Evict(FlushAll(old(store.State())), evicted)
      ensures Evictable(old(store.Cache()), now, evicted) && (repeat <==> |store.blocks| > 500)
    {
      hide Integrity, BlockStore.HandleOf, Expire, Evict, FlushAll, Evictable, BlockStore.Table, BlockStore.Valid, BlockStore.Cache;
      IntegrityMakesWhole(store.config, store.State());
      ghost var cache := store.Cache();
      var none := new FileInfo(0, 0);
      NewFile(none);
      repeat, evicted := store.WriterPass(now, none);
      PassProgress(cache, now, evicted);
    }

    /** A pass as all open files see it. */
    method Pass(now: int) returns (repeat: bool, ghost evicted: set<int>)
      requires Ok()
      modifies store`blocks, store`storage, store.blocks.Values
      ensures Ok()
      ensures Perform(store.config, old(Value()), OpPass(evicted)) == Done((Value(), []))
      ensures Evictable(old(store.Cache()), now, evicted) && (repeat <==> |store.blocks| > 500)
    {
      hide Integrity, HandleOk, BlockStore.State, BlockStore.HandleOf, ExpireAll, Evict, FlushAll, Evictable, Perform, WorldOk,
           Apart, Handles, AllEntries, BlockStore.Table, BlockStore.Valid, Value, BlockStore.Cache;
      StoreOk();
      ghost var w := Value();
      repeat, evicted := PassOver(now);
      assert old(store.blocks.Keys) - store.blocks.Keys == evicted;
      PassSeenByAll();
      ValueParts();
      PerformPass(store.config, w, evicted);
      KeepsOk(w, OpPass(evicted));
    }
  }

  lemma PerformWrite(c: Config, w: World, hd: nat, buf: seq<Byte>, offset: int, now: int)
    requires WorldOk(c, w) && hd in w.handles && 0 <= offset && |buf| > 0
    ensures Integrity(c, w.st) && HandleOk(w.st, w.handles[hd])
    ensures Perform(c, w, OpWrite(hd, buf, offset, now))
         == match WriteBuf(c, w.st, w.handles[hd], buf, offset, now)
            case Aborted => Aborted
            case Done((st, h)) => Done((World(st, w.handles[hd := h]), []))
  {
    hide WriteBuf, Integrity, HandleOk;
  }

  lemma PerformOpen(c: Config, w: World, hd: nat, f: FileId)
    requires WorldOk(c, w) && f in w.st.sizes
    ensures Perform(c, w, OpOpen(hd, f)) == Done((w.(handles := w.handles[hd := Handle(f, w.st.sizes[f], map[])]), []))
  {
  }

  lemma PerformPass(c: Config, w: World, evicted: set<int>)
    requires WorldOk(c, w)
    ensures Perform(c, w, OpPass(evicted))
         == Done((World(Evict(FlushAll(w.st), evicted), ExpireAll(w.handles, evicted)), []))
  {
  }

  lemma PerformRead(c: Config, w: World, hd: nat, size: int, offset: int, now: int)
    requires WorldOk(c, w) && hd in w.handles && 0 <= size && 0 <= offset <= w.handles[hd].size
    ensures Integrity(c, w.st) && HandleOk(w.st, w.handles[hd])
    ensures Perform(c, w, OpRead(hd, size, offset, now))
         == match ReadBuf(c, w.st, w.handles[hd], size, offset, now)
            case Aborted => Aborted
            case Done((st, h, bytes)) => Done((World(st, w.handles[hd := h]), bytes))
  {
    hide ReadBuf, Integrity, HandleOk;
  }

  lemma PerformTruncate(c: Config, w: World, hd: nat, newSize: int)
    requires WorldOk(c, w) && hd in w.handles && 0 <= newSize
    ensures Integrity(c, w.st) && HandleOk(w.st, w.handles[hd])
    ensures Perform(c, w, OpTruncate(hd, newSize))
         == match Truncate(c, w.st, w.handles[hd], newSize)
            case Aborted => Aborted
            case Done((st, h)) => Done((World(st, w.handles[hd := h]), []))
  {
    hide Truncate, Integrity, HandleOk;
  }
}
