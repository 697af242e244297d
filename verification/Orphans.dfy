/** The orphan pool (chain.go): blocks whose parent is unknown, indexed by hash and by parent. */
module Orphans {
  import opened BlockTree
  import opened Chain
  import opened Sets
  import opened Wrappers

  const MAX_ORPHAN_BLOCKS: nat := 100
  const ORPHAN_LIFETIME: int := 3600

  datatype Orphan = Orphan(block: Block, expiration: int) {
    function Hash(): Hash {
      block.header.hash
    }

    function Prev(): Hash {
      block.header.prev
    }
  }

  /** A list of distinct pooled orphans of one parent; never empty. */
  predicate ListOk(orphans: map<Hash, Orphan>, parent: Hash, list: seq<Orphan>) {
    && list != []
    && (forall i | 0 <= i < |list| ::
          list[i].Prev() == parent && list[i].Hash() in orphans && orphans[list[i].Hash()] == list[i])
    && Distinct(list)
  }

  predicate Distinct(list: seq<Orphan>) {
    forall i, j | 0 <= i < j < |list| :: list[i].Hash() != list[j].Hash()
  }

  /** `prevOrphans` is exactly the by-parent index of `orphans`. */
  predicate IndexedByParent(orphans: map<Hash, Orphan>, prevOrphans: map<Hash, seq<Orphan>>) {
    && (forall p | p in prevOrphans :: ListOk(orphans, p, prevOrphans[p]))
    && (forall h | h in orphans :: ListedUnderParent(prevOrphans, h, orphans[h]))
  }

  predicate ListedUnderParent(prevOrphans: map<Hash, seq<Orphan>>, h: Hash, orphan: Orphan) {
    orphan.Hash() == h && orphan.Prev() in prevOrphans && orphan in prevOrphans[orphan.Prev()]
  }

  /** `list` without the entries for `hash`. */
  function Without(list: seq<Orphan>, hash: Hash): (rest: seq<Orphan>)
    ensures |rest| <= |list|
  {
    if list == [] then []
    else if list[0].Hash() == hash then Without(list[1..], hash)
    else [list[0]] + Without(list[1..], hash)
  }

  lemma {:induction false} WithoutMembers(list: seq<Orphan>, hash: Hash)
    ensures forall o :: o in Without(list, hash) <==> o in list && o.Hash() != hash
  {
    if list != [] {
      WithoutMembers(list[1..], hash);
      assert list == [list[0]] + list[1..];
    }
  }

  lemma {:induction false} WithoutDistinct(list: seq<Orphan>, hash: Hash)
    requires Distinct(list)
    ensures Distinct(Without(list, hash))
  {
    if list != [] {
      var tail, rest := list[1..], Without(list[1..], hash);
      assert forall i | 0 <= i < |tail| :: tail[i] == list[i + 1];
      WithoutDistinct(tail, hash);
      WithoutMembers(tail, hash);
      forall i | 0 <= i < |rest|
        ensures list[0].Hash() != rest[i].Hash()
      {
        assert rest[i] in tail;
      }
      ConsDistinct(list[0], rest);
    }
  }

  lemma {:induction false} ConsDistinct(o: Orphan, rest: seq<Orphan>)
    requires Distinct(rest) && forall i | 0 <= i < |rest| :: o.Hash() != rest[i].Hash()
    ensures Distinct([o] + rest)
  {
  }

  lemma {:induction false} WithoutSplit(a: seq<Orphan>, o: Orphan, b: seq<Orphan>, hash: Hash)
    ensures Without(a + [o] + b, hash) ==
            Without(a, hash) + (if o.Hash() == hash then [] else [o]) + Without(b, hash)
  {
    if a == [] {
      assert a + [o] + b == [o] + b;
    } else {
      assert (a + [o] + b)[1..] == a[1..] + [o] + b;
      WithoutSplit(a[1..], o, b, hash);
    }
  }

  /** Taking an orphan out of the pool and of its parent's list keeps the index exact. */
  lemma {:induction false} RemovedIsIndexed(orphans: map<Hash, Orphan>, prevOrphans: map<Hash, seq<Orphan>>, o: Orphan)
    requires IndexedByParent(orphans, prevOrphans)
    requires o.Hash() in orphans ==> orphans[o.Hash()].Prev() == o.Prev()
    ensures IndexedByParent(orphans - {o.Hash()}, RemovedList(prevOrphans, o))
  {
    hide ListOk, ListedUnderParent;
    var orphans', prevOrphans' := orphans - {o.Hash()}, RemovedList(prevOrphans, o);
    forall p | p in prevOrphans'
      ensures ListOk(orphans', p, prevOrphans'[p])
    {
      RemovedListOk(orphans, prevOrphans, o, p);
    }
    forall h | h in orphans'
      ensures ListedUnderParent(prevOrphans', h, orphans'[h])
    {
      RemovedListed(orphans, prevOrphans, o, h);
    }
  }

  /** The by-parent lists after the removal of `o`. */
  function RemovedList(prevOrphans: map<Hash, seq<Orphan>>, o: Orphan): map<Hash, seq<Orphan>> {
    var list := Without(if o.Prev() in prevOrphans then prevOrphans[o.Prev()] else [], o.Hash());
    if list == [] then prevOrphans - {o.Prev()} else prevOrphans[o.Prev() := list]
  }

  lemma {:induction false} RemovedListOk(orphans: map<Hash, Orphan>, prevOrphans: map<Hash, seq<Orphan>>, o: Orphan,
                                         p: Hash)
    requires IndexedByParent(orphans, prevOrphans) && p in RemovedList(prevOrphans, o)
    requires o.Hash() in orphans ==> orphans[o.Hash()].Prev() == o.Prev()
    ensures ListOk(orphans - {o.Hash()}, p, RemovedList(prevOrphans, o)[p])
  {
    assert ListOk(orphans, p, prevOrphans[p]);
    if p == o.Prev() {
      WithoutMembers(prevOrphans[p], o.Hash());
      WithoutDistinct(prevOrphans[p], o.Hash());
      var list := Without(prevOrphans[p], o.Hash());
      forall i | 0 <= i < |list|
        ensures list[i] in prevOrphans[p] && list[i].Hash() != o.Hash()
      {
        assert list[i] in list;
      }
    }
  }

  lemma {:induction false} RemovedListed(orphans: map<Hash, Orphan>, prevOrphans: map<Hash, seq<Orphan>>, o: Orphan,
                                         h: Hash)
    requires IndexedByParent(orphans, prevOrphans) && h in orphans && h != o.Hash()
    ensures ListedUnderParent(RemovedList(prevOrphans, o), h, orphans[h])
  {
    assert ListedUnderParent(prevOrphans, h, orphans[h]);
    if orphans[h].Prev() == o.Prev() {
      WithoutMembers(prevOrphans[o.Prev()], o.Hash());
    }
  }

  lemma {:induction false} AddedIsIndexed(orphans: map<Hash, Orphan>, prevOrphans: map<Hash, seq<Orphan>>, o: Orphan)
    requires IndexedByParent(orphans, prevOrphans) && o.Hash() !in orphans
    ensures var list := if o.Prev() in prevOrphans then prevOrphans[o.Prev()] else [];
      IndexedByParent(orphans[o.Hash() := o], prevOrphans[o.Prev() := list + [o]])
  {
    var list := if o.Prev() in prevOrphans then prevOrphans[o.Prev()] else [];
    var orphans', prevOrphans' := orphans[o.Hash() := o], prevOrphans[o.Prev() := list + [o]];
    forall p | p in prevOrphans'
      ensures ListOk(orphans', p, prevOrphans'[p])
    {
      assert p in prevOrphans ==> ListOk(orphans, p, prevOrphans[p]);
    }
    forall h | h in orphans'
      ensures ListedUnderParent(prevOrphans', h, orphans'[h])
    {
      assert h != o.Hash() ==> ListedUnderParent(prevOrphans, h, orphans[h]);
    }
  }

  // ----- the pool -----

  class OrphanPool {
    var orphans: map<Hash, Orphan>
    var prevOrphans: map<Hash, seq<Orphan>>
    var oldestOrphan: Option<Orphan>

    /** A hash names one header; `headerOf` is that naming. */
    ghost const headerOf: Hash -> Header

    ghost predicate Valid()
      reads this
    {
      && IndexedByParent(orphans, prevOrphans)
      && (forall h | h in orphans :: orphans[h].block.header == headerOf(h))
      && (oldestOrphan.Some? ==> oldestOrphan.value.block.header == headerOf(oldestOrphan.value.Hash()))
    }

    constructor (ghost headerOf: Hash -> Header)
      ensures Valid() && orphans == map[] && oldestOrphan == None && this.headerOf == headerOf
    {
      this.headerOf := headerOf;
      orphans, prevOrphans, oldestOrphan := map[], map[], None;
    }

    predicate IsKnownOrphan(hash: Hash)
      reads this
    {
      hash in orphans
    }

    /** The orphans waiting for `parent`; a missing entry is an empty list. */
    function OrphansOf(parent: Hash): seq<Orphan>
      reads this
    {
      if parent in prevOrphans then prevOrphans[parent] else []
    }

    /** `removeOrphanBlock`; removing an orphan that has already left the pool changes nothing. */
    method RemoveOrphanBlock(orphan: Orphan)
      requires Valid() && orphan.block.header == headerOf(orphan.Hash())
      modifies this
      ensures Valid() && orphans == old(orphans) - {orphan.Hash()} && oldestOrphan == old(oldestOrphan)
    {
      hide IndexedByParent, RemovedList;
      RemovedIsIndexed(orphans, prevOrphans, orphan);
      RemovedListMeans(prevOrphans, orphan);
      orphans := orphans - {orphan.Hash()};

      var prevHash := orphan.Prev();
      var list := RemoveFromList(if prevHash in prevOrphans then prevOrphans[prevHash] else [], orphan.Hash());
      if |list| == 0 {
        prevOrphans := prevOrphans - {prevHash};
      } else {
        prevOrphans := prevOrphans[prevHash := list];
      }
    }

    /**
     * `addOrphanBlock`: drops expired orphans and, when the pool is full, evicts one. The pool then
     * stays within its limit exactly when the remembered oldest orphan is not stale.
     */
    method AddOrphanBlock(block: Block, now: int)
      requires Valid() && block.header.hash !in orphans && block.header == headerOf(block.header.hash)
      modifies this
      ensures Valid()
      ensures block.header.hash in orphans && orphans[block.header.hash] == Orphan(block, now + ORPHAN_LIFETIME)
      ensures forall h | h in orphans && h != block.header.hash ::
        h in Live(old(orphans), now) && orphans[h] == old(orphans)[h]
      ensures forall h | h in Live(old(orphans), now) && h !in orphans ::
        MayBeEvicted(Live(old(orphans), now), old(oldestOrphan), h)
      ensures |orphans| == |Live(old(orphans), now)| + 1 -
        (if |Live(old(orphans), now)| >= MAX_ORPHAN_BLOCKS && !StaleOldest(Live(old(orphans), now), old(oldestOrphan))
         then 1 else 0)
      ensures |Live(old(orphans), now)| < MAX_ORPHAN_BLOCKS ==>
        orphans == Live(old(orphans), now)[block.header.hash := Orphan(block, now + ORPHAN_LIFETIME)]
      ensures StaleOldest(Live(old(orphans), now), old(oldestOrphan)) ==>
        orphans == Live(old(orphans), now)[block.header.hash := Orphan(block, now + ORPHAN_LIFETIME)]
      ensures |Live(old(orphans), now)| >= MAX_ORPHAN_BLOCKS ==> oldestOrphan == None
      ensures |Live(old(orphans), now)| < MAX_ORPHAN_BLOCKS ==>
        OldestOf(Live(old(orphans), now), old(oldestOrphan), oldestOrphan)
    {
      hide IndexedByParent, OldestOf, StaleOldest, MayBeEvicted, Live;
      MakeRoom(now);
      var oBlock := Orphan(block, now + ORPHAN_LIFETIME);
      LiveStays(old(orphans), now);
      AddedIsIndexed(orphans, prevOrphans, oBlock);
      AddedSize(orphans, oBlock);
      orphans := orphans[block.header.hash := oBlock];
      var prevHash := block.header.prev;
      var list := if prevHash in prevOrphans then prevOrphans[prevHash] else [];
      prevOrphans := prevOrphans[prevHash := list + [oBlock]];
    }

    /** The first part of `addOrphanBlock`: expired orphans go, and one more when the pool is full. */
    method MakeRoom(now: int)
      requires Valid()
      modifies this
      ensures Valid()
      ensures var live := Live(old(orphans), now);
        && (forall h | h in orphans :: h in live && orphans[h] == live[h])
        && (forall h | h in live && h !in orphans :: MayBeEvicted(live, old(oldestOrphan), h))
        && |orphans| == |live| -
             (if |live| >= MAX_ORPHAN_BLOCKS && !StaleOldest(live, old(oldestOrphan)) then 1 else 0)
        && (|live| < MAX_ORPHAN_BLOCKS || StaleOldest(live, old(oldestOrphan)) ==> orphans == live)
        && (|live| >= MAX_ORPHAN_BLOCKS ==> oldestOrphan == None)
        && (|live| < MAX_ORPHAN_BLOCKS ==> OldestOf(live, old(oldestOrphan), oldestOrphan))
    {
      hide IndexedByParent, OldestOf, StaleOldest, MayBeEvicted, Live;
      DropExpired(now);
      if |orphans| + 1 > MAX_ORPHAN_BLOCKS {
        NonEmptyMap(orphans);
        OldestMeans(orphans, old(oldestOrphan), oldestOrphan);
        RemovedSize(orphans, oldestOrphan.value.Hash());
        RemoveOrphanBlock(oldestOrphan.value);
        oldestOrphan := None;
      }
    }

    /** The first loop of `addOrphanBlock`, over the pool in any order. */
    method DropExpired(now: int)
      requires Valid()
      modifies this
      ensures Valid() && orphans == Live(old(orphans), now)
      ensures forall h :: h in orphans <==> h in old(orphans) && now <= old(orphans)[h].expiration
      ensures OldestOf(orphans, old(oldestOrphan), oldestOrphan)
    {
      hide IndexedByParent;
      ghost var pool := orphans;
      ghost var expired := Expired(orphans, now);
      ghost var live := Live(orphans, now);
      var todo := orphans.Keys;
      while todo != {}
        invariant Valid() && todo <= pool.Keys
        invariant orphans == pool - (expired - todo)
        invariant oldestOrphan == old(oldestOrphan) ||
          (oldestOrphan.Some? && oldestOrphan.value.Hash() in live &&
            live[oldestOrphan.value.Hash()] == oldestOrphan.value &&
           (old(oldestOrphan).Some? ==> oldestOrphan.value.expiration < old(oldestOrphan).value.expiration))
        invariant oldestOrphan == None ==> pool.Keys - todo <= expired
        invariant forall h | h in live && h !in todo ::
          oldestOrphan.Some? && oldestOrphan.value.expiration <= live[h].expiration
      {
        var h := Pick(todo);
        var oBlock := orphans[h];
        OrphanUnderHash(orphans, prevOrphans, h);
        if now > oBlock.expiration {
          RemoveOrphanBlock(oBlock);
        } else if oldestOrphan == None || oBlock.expiration < oldestOrphan.value.expiration {
          oldestOrphan := Some(oBlock);
        }
        todo := todo - {h};
      }
    }
  }

  // ----- a pool beyond its limit -----

  /** The header of a block whose parent nobody has seen. */
  function Stray(h: Hash): Header {
    Header(h, ZERO_HASH - 1, 0, 0, 0, 0, 0, 0)
  }

  function StrayBlock(h: Hash): Block {
    Block(Stray(h), 1, 0)
  }

  function StrayOrphans(n: nat): map<Hash, Orphan> {
    map h: Hash | 0 < h <= n :: Orphan(StrayBlock(h), 3601)
  }

  lemma {:induction false} OneMoreStray(n: nat)
    ensures n + 1 !in StrayOrphans(n)
    ensures StrayOrphans(n + 1) == StrayOrphans(n)[n + 1 := Orphan(StrayBlock(n + 1), 3601)]
  {
  }

  lemma {:induction false} FirstStray(first: Orphan)
    requires first == Orphan(StrayBlock(0), 3600)
    ensures Live(map[], 0) == map[] && Live(map[0 := first], 1) == map[0 := first]
    ensures forall oldest | OldestOf(map[], None, oldest) :: oldest == None
    ensures forall oldest | OldestOf(map[0 := first], None, oldest) :: oldest == Some(first)
    ensures StrayOrphans(1) == map[1 := Orphan(StrayBlock(1), 3601)]
    ensures map[0 := first][1 := Orphan(StrayBlock(1), 3601)] - {0} == StrayOrphans(1)
  {
    var pool := map[0 := first];
    assert pool != map[] by { assert 0 in pool; }
  }

  lemma {:induction false} StrayCount(n: nat)
    ensures |StrayOrphans(n)| == n
  {
    hide StrayOrphans;
    if n > 0 {
      StrayCount(n - 1);
      OneMoreStray(n - 1);
    } else {
      assert StrayOrphans(0) == map[] by { NoStray(); }
    }
  }

  lemma {:induction false} NoStray()
    ensures StrayOrphans(0) == map[]
  {
  }

  lemma {:induction false} StraysLive(n: nat, oldest: Orphan)
    requires oldest.Hash() == 0 && oldest.expiration == 3600
    ensures Live(StrayOrphans(n), 1) == StrayOrphans(n) && |StrayOrphans(n)| == n
    ensures StaleOldest(StrayOrphans(n), Some(oldest))
    ensures forall oldest' :: OldestOf(StrayOrphans(n), Some(oldest), oldest') ==> oldest' == Some(oldest)
  {
    StrayCount(n);
  }

  /**
   * The limit can be exceeded: an orphan comes, is remembered as the oldest when the next one comes, and
   * leaves with its parent's arrival. A hundred younger orphans later there are more than the limit.
   */
  method OverfullPool() returns (pool: OrphanPool)
    ensures pool.Valid() && fresh(pool) && pool.orphans == StrayOrphans(101)
    ensures |pool.orphans| == 101 && Live(pool.orphans, 1) == pool.orphans
  {
    hide OldestOf, StaleOldest, MayBeEvicted, StrayOrphans, Live, OrphanPool.Valid;
    var first := Orphan(StrayBlock(0), 3600);
    FirstStray(first);
    pool := new OrphanPool(Stray);
    pool.AddOrphanBlock(StrayBlock(0), 0);
    assert pool.orphans == map[0 := first];
    pool.AddOrphanBlock(StrayBlock(1), 1);
    pool.RemoveOrphanBlock(first);
    assert pool.orphans == StrayOrphans(1);
    for i := 1 to MAX_ORPHAN_BLOCKS
      invariant pool.Valid() && fresh(pool) && pool.headerOf == Stray
      invariant pool.orphans == StrayOrphans(i) && pool.oldestOrphan == Some(first)
    {
      StraysLive(i, first);
      OneMoreStray(i);
      pool.AddOrphanBlock(StrayBlock(i + 1), 1);
    }
    StraysLive(MAX_ORPHAN_BLOCKS, first);
    OneMoreStray(MAX_ORPHAN_BLOCKS);
    pool.AddOrphanBlock(StrayBlock(MAX_ORPHAN_BLOCKS + 1), 1);
    StraysLive(MAX_ORPHAN_BLOCKS + 1, first);
  }

  /** The first orphan listed under a parent. */
  lemma {:induction false} FirstListed(orphans: map<Hash, Orphan>, prevOrphans: map<Hash, seq<Orphan>>, parent: Hash)
    requires IndexedByParent(orphans, prevOrphans) && parent in prevOrphans
    ensures prevOrphans[parent] != []
    ensures var o := prevOrphans[parent][0]; o.Prev() == parent && o.Hash() in orphans && orphans[o.Hash()] == o
  {
    assert ListOk(orphans, parent, prevOrphans[parent]);
  }

  lemma {:induction false} NoneListed(orphans: map<Hash, Orphan>, prevOrphans: map<Hash, seq<Orphan>>, parent: Hash)
    requires IndexedByParent(orphans, prevOrphans) && (parent in prevOrphans ==> prevOrphans[parent] == [])
    ensures forall h | h in orphans :: orphans[h].Prev() != parent
  {
    forall h | h in orphans
      ensures orphans[h].Prev() != parent
    {
      assert ListedUnderParent(prevOrphans, h, orphans[h]);
    }
  }

  lemma {:induction false} OrphanUnderHash(orphans: map<Hash, Orphan>, prevOrphans: map<Hash, seq<Orphan>>, h: Hash)
    requires IndexedByParent(orphans, prevOrphans) && h in orphans
    ensures orphans[h].Hash() == h
  {
    assert ListedUnderParent(prevOrphans, h, orphans[h]);
  }

  lemma {:induction false} NonEmptyMap(orphans: map<Hash, Orphan>)
    requires |orphans| > 0
    ensures orphans != map[]
  {
  }

  lemma {:induction false} RemovedSize(orphans: map<Hash, Orphan>, h: Hash)
    ensures |orphans - {h}| == |orphans| - if h in orphans then 1 else 0
  {
    assert (orphans - {h}).Keys == orphans.Keys - {h};
    assert |orphans.Keys - {h}| == |orphans.Keys| - if h in orphans.Keys then 1 else 0;
    assert |orphans| == |orphans.Keys| && |orphans - {h}| == |(orphans - {h}).Keys|;
  }

  lemma {:induction false} AddedSize(orphans: map<Hash, Orphan>, o: Orphan)
    requires o.Hash() !in orphans
    ensures |orphans[o.Hash() := o]| == |orphans| + 1
  {
  }

  /** The pooled orphans whose hour is not over. */
  function Live(orphans: map<Hash, Orphan>, now: int): map<Hash, Orphan> {
    orphans - Expired(orphans, now)
  }

  lemma {:induction false} LiveStays(orphans: map<Hash, Orphan>, now: int)
    ensures forall g | g in Live(orphans, now) :: g in orphans && Live(orphans, now)[g] == orphans[g]
  {
  }

  function Expired(orphans: map<Hash, Orphan>, now: int): set<Hash> {
    set h | h in orphans && now > orphans[h].expiration
  }

  /**
   * The remembered oldest orphan has left the pool, yet no pooled orphan is older: then the attempt
   * to evict it makes no room.
   */
  predicate StaleOldest(live: map<Hash, Orphan>, oldest: Option<Orphan>) {
    && oldest.Some?
    && oldest.value.Hash() !in live
    && forall h | h in live :: oldest.value.expiration <= live[h].expiration
  }

  /**
   * What is remembered after a look at the live orphans: the one remembered before, unless a live one is
   * older; then one that no live one is older than.
   */
  predicate OldestOf(live: map<Hash, Orphan>, oldest: Option<Orphan>, oldest': Option<Orphan>) {
    if live == map[] || (oldest.Some? && forall h | h in live :: oldest.value.expiration <= live[h].expiration) then
      oldest' == oldest
    else
      && oldest'.Some? && oldest'.value.Hash() in live && live[oldest'.value.Hash()] == oldest'.value
      && forall h | h in live :: oldest'.value.expiration <= live[h].expiration
  }

  lemma {:induction false} OldestMeans(live: map<Hash, Orphan>, oldest: Option<Orphan>, oldest': Option<Orphan>)
    requires OldestOf(live, oldest, oldest') && live != map[]
    ensures oldest'.Some? && MayBeEvicted(live, oldest, oldest'.value.Hash())
    ensures oldest'.value.Hash() !in live <==> StaleOldest(live, oldest)
  {
  }

  /**
   * The orphan to evict is a live one that no live orphan is older than, or has the hash of the one
   * remembered from before, which no live orphan is older than.
   */
  predicate MayBeEvicted(live: map<Hash, Orphan>, oldest: Option<Orphan>, h: Hash) {
    || (h in live && forall g | g in live :: live[h].expiration <= live[g].expiration)
    || (oldest.Some? && oldest.value.Hash() == h && forall g | g in live ::
         oldest.value.expiration <= live[g].expiration)
  }

  lemma {:induction false} RemovedListMeans(prevOrphans: map<Hash, seq<Orphan>>, o: Orphan)
    ensures var list := Without(if o.Prev() in prevOrphans then prevOrphans[o.Prev()] else [], o.Hash());
      RemovedList(prevOrphans, o) == if list == [] then prevOrphans - {o.Prev()} else prevOrphans[o.Prev() := list]
  {
  }

  /** The loop of `removeOrphanBlock`: closes the gap at each entry for `hash`. */
  method RemoveFromList(whole: seq<Orphan>, hash: Hash) returns (list: seq<Orphan>)
    ensures list == Without(whole, hash)
  {
    hide Without;
    list := whole;
    var i := 0;
    WithoutEmpty(hash);
    while i < |list|
      invariant 0 <= i <= |list|
      invariant Without(list[..i], hash) == list[..i]
      invariant Without(list, hash) == Without(whole, hash)
      decreases |list| - i
    {
      WithoutSplit(list[..i], list[i], list[i + 1..], hash);
      assert list == list[..i] + [list[i]] + list[i + 1..];
      WithoutOne(list[i], hash);
      if list[i].Hash() == hash {
        WithoutAppend(list[..i], list[i + 1..], hash);
        list := list[..i] + list[i + 1..];
      } else {
        WithoutAppend(list[..i], [list[i]], hash);
        assert list[..i + 1] == list[..i] + [list[i]];
        i := i + 1;
      }
    }
    assert list[..i] == list;
  }

  lemma {:induction false} WithoutEmpty(hash: Hash)
    ensures Without([], hash) == []
  {
  }

  lemma {:induction false} WithoutOne(o: Orphan, hash: Hash)
    ensures Without([o], hash) == if o.Hash() == hash then [] else [o]
  {
  }

  lemma {:induction false} WithoutAppend(a: seq<Orphan>, b: seq<Orphan>, hash: Hash)
    ensures Without(a + b, hash) == Without(a, hash) + Without(b, hash)
  {
    if a == [] {
      assert a + b == b;
    } else {
      assert (a + b)[1..] == a[1..] + b;
      WithoutAppend(a[1..], b, hash);
    }
  }
}
