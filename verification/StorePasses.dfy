/**
 What a pass of the writer thread does block by block, and that repeated passes make progress.
 */
module StorePasses {
  import opened Basics
  import opened StoreModel
  import opened StoreIntegrity

  // ---------- Flushing ----------

  /** Dirty blocks hold a whole block of data. */
  ghost predicate DirtyIsWhole(c: Config, cache: map<int, Cached>) {
    forall s :: s in cache && cache[s].dirty ==> |cache[s].data| == c.blockSize
  }

  ghost predicate NothingDirty(cache: map<int, Cached>) {
    forall s :: s in cache ==> !cache[s].dirty
  }

  lemma IntegrityMakesWhole(c: Config, st: Store)
    requires Integrity(c, st)
    ensures DirtyIsWhole(c, st.cache)
  {
    forall s | s in st.cache && st.cache[s].dirty
      ensures |st.cache[s].data| == c.blockSize
    {
      assert CachedOk(c, st, s);
    }
  }

  /** One block written out, if it is dirty. */
  function WrittenOut(st: Store, s: int): Store
    requires s in st.cache
  {
    if st.cache[s].dirty then
      st.(disk := st.disk[s := st.cache[s].data], cache := st.cache[s := st.cache[s].(dirty := false)])
    else st
  }

  /** The slots of the dirty blocks of `done`. */
  ghost function DirtyData(cache: map<int, Cached>, done: set<int>): map<int, Block> {
    map s | s in cache && s in done && cache[s].dirty :: cache[s].data
  }

  lemma DirtyOneMore(cache: map<int, Cached>, done: set<int>, s: int)
    requires s in cache && s !in done
    ensures DirtyData(cache, done + {s})
         == if cache[s].dirty then DirtyData(cache, done)[s := cache[s].data] else DirtyData(cache, done)
  {
  }

  /** The blocks of `done` written out. */
  ghost function FlushSome(st: Store, done: set<int>): Store {
    st.(disk := st.disk + DirtyData(st.cache, done),
        cache := map s | s in st.cache :: if s in done then st.cache[s].(dirty := false) else st.cache[s])
  }

  lemma FlushedNone(st: Store)
    ensures FlushSome(st, st.cache.Keys - st.cache.Keys) == st
  {
    assert FlushSome(st, {}).cache == st.cache;
    assert FlushSome(st, {}).disk == st.disk;
  }

  lemma FlushedFields(st: Store, done: set<int>, s: int)
    requires s in st.cache && s !in done
    ensures s in FlushSome(st, done).cache && FlushSome(st, done).cache[s] == st.cache[s]
  {
  }

  lemma FlushOneMore(st: Store, done: set<int>, s: int)
    requires s in st.cache && s !in done
    ensures s in FlushSome(st, done).cache && WrittenOut(FlushSome(st, done), s) == FlushSome(st, done + {s})
  {
    var a, b := FlushSome(st, done), FlushSome(st, done + {s});
    FlushedFields(st, done, s);
    assert b.cache == a.cache[s := st.cache[s].(dirty := false)];
    DirtyOneMore(st.cache, done, s);
    hide DirtyData;
    var data := DirtyData(st.cache, done);
    assert st.disk + data[s := st.cache[s].data] == (st.disk + data)[s := st.cache[s].data];
  }

  lemma FlushedEverything(st: Store, done: set<int>)
    requires done == st.cache.Keys
    ensures FlushSome(st, done) == FlushAll(st)
  {
    assert FlushSome(st, done).cache == FlushAll(st).cache;
    assert FlushSome(st, done).disk == FlushAll(st).disk;
  }

  lemma FlushedStaysFlushed(st: Store)
    ensures NothingDirty(FlushAll(st).cache) && FlushAll(st).cache.Keys == st.cache.Keys
  {
  }

  /** Two passes are one that evicts what either evicts. */
  lemma PassesCompose(st: Store, a: set<int>, b: set<int>)
    ensures Evict(FlushAll(Evict(FlushAll(st), a)), b) == Evict(FlushAll(st), a + b)
  {
    var x, y := Evict(FlushAll(Evict(FlushAll(st), a)), b), Evict(FlushAll(st), a + b);
    assert x.cache == y.cache;
    assert x.disk == y.disk;
  }

  lemma NothingForgotten(st: Store, h: Handle)
    ensures Evict(st, {}) == st && Expire(h, {}) == h
  {
    assert st.cache - {} == st.cache;
    assert Expire(h, {}).blocks == h.blocks;
  }

  lemma ExpireTwice(h: Handle, a: set<int>, b: set<int>)
    ensures Expire(Expire(h, a), b) == Expire(h, a + b)
  {
    assert Expire(Expire(h, a), b).blocks == Expire(h, a + b).blocks;
  }

  /** No block was accessed at or after `time`. */
  ghost predicate AccessedBefore(cache: map<int, Cached>, time: int) {
    forall s :: s in cache ==> cache[s].atime < time
  }

  lemma AfterPass(c: Config, st: Store, evicted: set<int>, time: int)
    ensures DirtyIsWhole(c, Evict(FlushAll(st), evicted).cache)
    ensures AccessedBefore(st.cache, time) ==> AccessedBefore(Evict(FlushAll(st), evicted).cache, time)
    ensures Evict(FlushAll(st), evicted).cache.Keys == st.cache.Keys - evicted
  {
  }

  // ---------- Choosing what to evict ----------

  /** `m` is the least of `now` and the access times of the blocks in `done`. */
  ghost predicate OldestAmong(cache: map<int, Cached>, done: set<int>, now: int, m: int) {
    && m <= now && (forall s :: s in cache && s in done ==> m <= cache[s].atime)
    && (m == now || exists s :: s in cache && s in done && m == cache[s].atime)
  }

  ghost predicate OldestAccess(cache: map<int, Cached>, now: int, m: int) {
    OldestAmong(cache, cache.Keys, now, m)
  }

  /** The blocks a pass may evict when the oldest access was at `m`. */
  ghost function Old(cache: map<int, Cached>, m: int): set<int> {
    set s | s in cache && cache[s].atime < m + 10
  }

  /** The up to 64 lowest-numbered of the blocks that may be evicted. */
  ghost predicate LowestOld(cache: map<int, Cached>, m: int, evicted: set<int>) {
    && evicted <= Old(cache, m) && |evicted| == Min(64, |Old(cache, m)|)
    && forall s, t :: s in evicted && t in Old(cache, m) - evicted ==> s < t
  }

  /** What a pass evicts at time `now`. */
  ghost predicate Evictable(cache: map<int, Cached>, now: int, evicted: set<int>) {
    if |cache| > 500 then exists m :: OldestAccess(cache, now, m) && LowestOld(cache, m, evicted)
    else evicted == {}
  }

  lemma FlushedAccesses(st: Store, m: int)
    ensures forall e :: LowestOld(FlushAll(st).cache, m, e) ==> LowestOld(st.cache, m, e)
    ensures |FlushAll(st).cache| == |st.cache|
  {
    assert FlushAll(st).cache.Keys == st.cache.Keys;
    assert Old(FlushAll(st).cache, m) == Old(st.cache, m);
  }

  lemma EvictableWhenFull(st: Store, now: int, m: int, evicted: set<int>)
    requires OldestAccess(st.cache, now, m) && |st.cache| > 500 && LowestOld(FlushAll(st).cache, m, evicted)
    ensures Evictable(st.cache, now, evicted)
  {
    hide OldestAccess, LowestOld;
    FlushedAccesses(st, m);
  }

  lemma {:induction false} LeastMember(s: set<int>) returns (m: int)
    requires |s| > 0
    ensures m in s && forall t :: t in s ==> m <= t
    decreases |s|
  {
    m := SomeMember(s);
    var rest := s - {m};
    if |rest| > 0 {
      var k := LeastMember(rest);
      forall t | t in s
        ensures Min(m, k) <= t
      {
        assert t == m || t in rest;
      }
      m := Min(m, k);
    } else {
      forall t | t in s
        ensures m <= t
      {
        assert t == m || t in rest;
      }
    }
  }

  lemma LeastExists(todo: set<int>)
    requires |todo| > 0
    ensures exists s :: s in todo && forall t :: t in todo ==> s <= t
  {
    var m := LeastMember(todo);
  }

  lemma OldestOfNone(cache: map<int, Cached>, now: int)
    ensures OldestAmong(cache, cache.Keys - cache.Keys, now, now)
  {
  }

  lemma OldestStep(cache: map<int, Cached>, todo: set<int>, s: int, now: int, m: int)
    requires s in todo && s in cache
    requires OldestAmong(cache, cache.Keys - todo, now, m)
    ensures OldestAmong(cache, cache.Keys - (todo - {s}), now, Min(m, cache[s].atime))
  {
  }

  lemma FlushStep(st: Store, keys: set<int>, todo: set<int>, s: int)
    requires keys == st.cache.Keys && todo <= keys && s in todo
    ensures var t := FlushSome(st, keys - todo);
            && s in t.cache && t.cache[s] == st.cache[s]
            && WrittenOut(t, s) == FlushSome(st, keys - (todo - {s}))
  {
    assert keys - (todo - {s}) == keys - todo + {s};
    FlushOneMore(st, keys - todo, s);
  }

  /** The old blocks below `todo`, all of which were visited. */
  ghost predicate OldBefore(cache: map<int, Cached>, m: int, todo: set<int>, found: set<int>) {
    && found == Old(cache, m) - todo && |found| <= 64
    && forall s, t :: s in cache.Keys - todo && t in todo ==> s < t
  }

  lemma NoneFound(cache: map<int, Cached>, m: int)
    ensures OldBefore(cache, m, cache.Keys, {})
  {
    assert Old(cache, m) - cache.Keys == {};
  }

  lemma OldStep(cache: map<int, Cached>, m: int, todo: set<int>, found: set<int>, s: int)
    requires OldBefore(cache, m, todo, found) && |found| <= 63 && s in todo && s in cache
    requires forall t :: t in todo ==> s <= t
    ensures OldBefore(cache, m, todo - {s}, if cache[s].atime < m + 10 then found + {s} else found)
  {
    assert Old(cache, m) - (todo - {s}) == if cache[s].atime < m + 10 then found + {s} else found;
    forall u, t | u in cache.Keys - (todo - {s}) && t in todo - {s}
      ensures u < t
    {
      if u != s {
        assert u in cache.Keys - todo;
      }
    }
  }

  lemma CleanStays(st: Store, s: int)
    requires NothingDirty(st.cache) && s in st.cache
    ensures WrittenOut(st, s) == st && !st.cache[s].dirty
  {
  }

  lemma CountOld(cache: map<int, Cached>, m: int, todo: set<int>, found: set<int>)
    requires OldBefore(cache, m, todo, found) && (|todo| == 0 || |found| >= 64)
    ensures LowestOld(cache, m, found)
  {
    Subsets(found, Old(cache, m));
    forall s, t | s in found && t in Old(cache, m) - found
      ensures s < t
    {
      assert s in cache.Keys - todo && t in todo;
    }
  }

  lemma Subsets(a: set<int>, b: set<int>)
    requires a <= b
    ensures |a| <= |b| && |b - a| == |b| - |a|
  {
    assert b == a + (b - a);
  }

  /**
   A pass evicts at most 64 blocks, and some block exactly when more than 500 are cached and one of them
   was last accessed before ten seconds from now.
   */
  lemma PassProgress(cache: map<int, Cached>, now: int, evicted: set<int>)
    requires Evictable(cache, now, evicted)
    ensures evicted <= cache.Keys && |evicted| <= 64 && |cache - evicted| == |cache| - |evicted|
    ensures |evicted| > 0 <==> |cache| > 500 && exists s :: s in cache && cache[s].atime < now + 10
  {
    if |cache| > 500 {
      var m :| OldestAccess(cache, now, m) && LowestOld(cache, m, evicted);
      if s :| s in cache && cache[s].atime < now + 10 {
        if m == now {
          assert s in Old(cache, m);
        } else {
          var t :| t in cache && m == cache[t].atime;
          assert t in Old(cache, m);
        }
        assert |Old(cache, m)| > 0;
      } else if |evicted| > 0 {
        var t := SomeMember(evicted);
        assert false;
      }
    }
    assert evicted <= cache.Keys;
    Subsets(evicted, cache.Keys);
    assert (cache - evicted).Keys == cache.Keys - evicted;
  }

  /**
   What a pass evicts from a cache of more than 500 blocks, when the oldest access was at `oldest`: the blocks accessed
   less than ten seconds after that, the 64 lowest-numbered of them.
   */
  lemma PassChoice(cache: map<int, Cached>, now: int, evicted: set<int>, oldest: int, s: int)
    requires Evictable(cache, now, evicted) && |cache| > 500 && s in cache
    requires oldest <= now && (forall t :: t in cache ==> oldest <= cache[t].atime)
    requires oldest == now || exists t :: t in cache && cache[t].atime == oldest
    ensures s in evicted <==>
              && cache[s].atime < oldest + 10
              && |set t | t in cache && t < s && cache[t].atime < oldest + 10| < 64
  {
    assert LowestOld(cache, oldest, evicted);
    var below := set t | t in cache && t < s && cache[t].atime < oldest + 10;
    var olds := Old(cache, oldest);
    if s in evicted {
      forall t | t in below
        ensures t in evicted - {s}
      {
        assert t in olds - evicted ==> s < t;
      }
      Subsets(below, evicted - {s});
    } else if s in olds && |below| < 64 {
      forall t | t in evicted
        ensures t in below
      {
        assert s in olds - evicted;
      }
      Subsets(evicted, below);
      Subsets(evicted, olds);
    }
  }

  /** A block accessed ten seconds or more after another cached block is not evicted. */
  lemma UsedStays(cache: map<int, Cached>, now: int, evicted: set<int>, s: int, t: int)
    requires Evictable(cache, now, evicted) && s in cache && t in cache
    requires cache[t].atime <= now && cache[s].atime >= cache[t].atime + 10
    ensures s !in evicted
  {
  }

  /** With more than 500 blocks cached and none accessed far in the future, a pass makes the cache smaller. */
  lemma SomeEvicted(cache: map<int, Cached>, start: int, now: int, evicted: set<int>)
    requires Evictable(cache, now, evicted) && AccessedBefore(cache, start + 10) && start <= now && |cache| > 500
    ensures evicted <= cache.Keys && |cache.Keys - evicted| < |cache|
  {
    hide Evictable;
    PassProgress(cache, now, evicted);
    var s := SomeMember(cache.Keys);
    Subsets(evicted, cache.Keys);
  }
}
