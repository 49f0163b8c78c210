/** The buffer pool manager of src/buffer/buffer_pool_manager.cpp.

    The pool is a fixed array of frames, a page table from page ids to
    frames and a free list of frames.  The disk manager and the replacer are
    collaborators whose calls are recorded in two logs carried by the state;
    the frame the replacer would hand out as a victim is a parameter of the
    operations that may ask for one.  Every operation is a transition of one
    pool value to the next; the latch is left out, so each is atomic. */
module BufferPoolManager {

  import opened Wrappers

  /** INVALID_PAGE_ID of the page header. */
  const InvalidPageId: int := -1

  /** The metadata of one Page slot; its bytes are not modelled. */
  datatype Frame = Frame(pageId: int, pinCount: int, isDirty: bool)

  /** A slot that holds no page: what a Page starts as and what
      DeletePageImpl resets a frame to. */
  const EmptyFrame: Frame := Frame(InvalidPageId, 0, false)

  /** Calls made to the disk manager, in order. */
  datatype DiskCall =
    | ReadPage(pageId: int)
    | WritePage(pageId: int)
    | AllocatePage(pageId: int)
    | DeallocatePage(pageId: int)

  /** Calls made to the replacer, in order; a victim call records its answer. */
  datatype ReplacerCall =
    | PinCall(frameId: int)
    | UnpinCall(frameId: int)
    | VictimCall(answer: Option<int>)

  datatype Pool = Pool(
    frames: seq<Frame>,
    pageTable: map<int, int>,
    freeList: seq<int>,
    disk: seq<DiskCall>,
    replacer: seq<ReplacerCall>)

  /** The state after an operation that returns a Page pointer: the frame
      it points at, or None for nullptr. */
  datatype PageResult = PageResult(pool: Pool, frame: Option<int>)

  /** The state after an operation that returns a bool. */
  datatype BoolResult = BoolResult(pool: Pool, ok: bool)

  // ---------------------------------------------------------------------
  // The bookkeeping invariant.
  // ---------------------------------------------------------------------

  /** Every page-table entry points at a frame that holds that page. */
  ghost predicate TableSound(s: Pool) {
    forall p :: p in s.pageTable ==>
      0 <= s.pageTable[p] < |s.frames| && s.frames[s.pageTable[p]].pageId == p
  }

  /** Some page-table entry points at frame f. */
  ghost predicate Maps(pageTable: map<int, int>, f: int) {
    exists p :: p in pageTable && pageTable[p] == f
  }

  /** Free frames are empty, listed once, and not in the page table. */
  ghost predicate FreeListSound(s: Pool) {
    && (forall i :: 0 <= i < |s.freeList| ==>
          0 <= s.freeList[i] < |s.frames| && s.frames[s.freeList[i]] == EmptyFrame)
    && (forall i, j :: 0 <= i < j < |s.freeList| ==> s.freeList[i] != s.freeList[j])
    && (forall i, p :: 0 <= i < |s.freeList| && p in s.pageTable ==> s.pageTable[p] != s.freeList[i])
  }

  ghost predicate PinsNonNegative(s: Pool) {
    forall f :: 0 <= f < |s.frames| ==> s.frames[f].pinCount >= 0
  }

  /** Frame f is either free or holds a resident page. */
  ghost predicate Accounted(pageTable: map<int, int>, freeList: seq<int>, f: int) {
    f in freeList || Maps(pageTable, f)
  }

  /** Page table, frames and free list agree, and cover every frame. */
  ghost predicate Consistent(s: Pool) {
    && TableSound(s)
    && FreeListSound(s)
    && PinsNonNegative(s)
    && forall f :: 0 <= f < |s.frames| ==> Accounted(s.pageTable, s.freeList, f)
  }

  /** The transient state of a miss: frame f has been taken from the free
      list or from its old page, and is neither free nor mapped yet. */
  ghost predicate Detached(s: Pool, f: int) {
    && TableSound(s)
    && FreeListSound(s)
    && PinsNonNegative(s)
    && 0 <= f < |s.frames|
    && f !in s.freeList
    && !Maps(s.pageTable, f)
    && forall g :: 0 <= g < |s.frames| && g != f ==> Accounted(s.pageTable, s.freeList, g)
  }

  /** A frame id the replacer may hand out: one of the pool's frames. */
  predicate ValidVictim(s: Pool, victim: Option<int>) {
    victim.Some? ==> 0 <= victim.value < |s.frames|
  }

  /** In a consistent pool no two pages share a frame. */
  lemma TableInjective(s: Pool, p: int, q: int)
    requires Consistent(s) && p in s.pageTable && q in s.pageTable && p != q
    ensures s.pageTable[p] != s.pageTable[q]
  {
  }

  /** A frame in the page table is mapped from the page it holds. */
  lemma ResidentFrame(s: Pool, f: int)
    requires TableSound(s) && Maps(s.pageTable, f)
    ensures s.frames[f].pageId in s.pageTable && s.pageTable[s.frames[f].pageId] == f
  {
    var p :| p in s.pageTable && s.pageTable[p] == f;
  }

  // ---------------------------------------------------------------------
  // Operations.
  // ---------------------------------------------------------------------

  /** The constructor: every frame starts empty and on the free list, in
      frame order. */
  method Init(poolSize: nat) returns (s: Pool)
    ensures Consistent(s)
    ensures |s.frames| == poolSize
    ensures forall f :: 0 <= f < poolSize ==> s.frames[f] == EmptyFrame
    ensures s.pageTable == map[] && s.disk == [] && s.replacer == []
    ensures |s.freeList| == poolSize && forall i :: 0 <= i < poolSize ==> s.freeList[i] == i
  {
    var freeList: seq<int> := [];
    var i := 0;
    while i < poolSize
      invariant 0 <= i <= poolSize
      invariant |freeList| == i
      invariant forall k :: 0 <= k < i ==> freeList[k] == k
    {
      freeList := freeList + [i];
      i := i + 1;
    }
    s := Pool(seq(poolSize, _ => EmptyFrame), map[], freeList, [], []);
    assert forall f :: 0 <= f < poolSize ==> freeList[f] == f && Accounted(s.pageTable, s.freeList, f);
  }

  /** FlushPageImpl: a resident dirty page is written under its id and
      marked clean; a resident clean page is left alone; a page that is not
      resident is reported with false. */
  function FlushPage(s: Pool, pageId: int): (r: BoolResult)
    requires Consistent(s)
    ensures Consistent(r.pool)
    ensures r.ok <==> pageId in s.pageTable
    ensures r.pool.pageTable == s.pageTable && r.pool.freeList == s.freeList
    ensures r.pool.replacer == s.replacer
    ensures |r.pool.frames| == |s.frames|
    ensures forall f :: 0 <= f < |s.frames| ==>
      r.pool.frames[f].pageId == s.frames[f].pageId && r.pool.frames[f].pinCount == s.frames[f].pinCount
    ensures forall f :: 0 <= f < |s.frames| && r.pool.frames[f].isDirty != s.frames[f].isDirty ==>
      pageId in s.pageTable && f == s.pageTable[pageId]
    ensures pageId in s.pageTable ==> !r.pool.frames[s.pageTable[pageId]].isDirty
    ensures r.pool.disk == s.disk +
      (if pageId in s.pageTable && s.frames[s.pageTable[pageId]].isDirty then [WritePage(pageId)] else [])
  {
    if pageId !in s.pageTable then
      BoolResult(s, false)
    else
      var f := s.pageTable[pageId];
      if s.frames[f].isDirty then
        assert forall i :: 0 <= i < |s.freeList| ==> s.freeList[i] != f;
        BoolResult(s.(frames := s.frames[f := s.frames[f].(isDirty := false)],
                      disk := s.disk + [WritePage(s.frames[f].pageId)]), true)
      else
        BoolResult(s, true)
  }

  /** Steps 1.2 to 3 of FetchPageImpl, shared by NewPageImpl: take the
      front of the free list; only when it is empty ask the replacer, write
      the victim back under its old page id if dirty, clear its dirty flag
      and erase its old page-table entry. */
  function AcquireFrame(s: Pool, victim: Option<int>): (a: PageResult)
    requires Consistent(s) && ValidVictim(s, victim)
    ensures |a.pool.frames| == |s.frames|
    ensures a.frame.None? <==> |s.freeList| == 0 && victim.None?
    ensures a.frame.None? ==> a.pool == s.(replacer := s.replacer + [VictimCall(None)])
    ensures a.frame.Some? ==> Detached(a.pool, a.frame.value) && !a.pool.frames[a.frame.value].isDirty
    ensures |s.freeList| > 0 ==>
      a.frame == Some(s.freeList[0]) && a.pool == s.(freeList := s.freeList[1..])
    ensures |s.freeList| == 0 && victim.Some? ==>
      var f := victim.value;
      var evicted := s.frames[f].pageId;
      && a.frame == victim
      && evicted in s.pageTable && s.pageTable[evicted] == f
      && a.pool.pageTable == s.pageTable - {evicted}
      && a.pool.freeList == []
      && a.pool.frames == s.frames[f := s.frames[f].(isDirty := false)]
      && a.pool.disk == s.disk + (if s.frames[f].isDirty then [WritePage(evicted)] else [])
      && a.pool.replacer == s.replacer + [VictimCall(victim)]
  {
    if |s.freeList| > 0 then
      var f := s.freeList[0];
      var t := s.(freeList := s.freeList[1..]);
      DetachFront(s, t);
      PageResult(t, Some(f))
    else if victim.None? then
      PageResult(s.(replacer := s.replacer + [VictimCall(None)]), None)
    else
      var f := victim.value;
      assert Accounted(s.pageTable, s.freeList, f);
      ResidentFrame(s, f);
      var s1 := s.(replacer := s.replacer + [VictimCall(victim)]);
      var s2 := if s1.frames[f].isDirty then FlushPage(s1, s1.frames[f].pageId).pool else s1;
      var s3 := s2.(frames := s2.frames[f := s2.frames[f].(isDirty := false)]);
      var t := s3.(pageTable := s3.pageTable - {s3.frames[f].pageId});
      assert t.frames == s.frames[f := s.frames[f].(isDirty := false)];
      DetachVictim(s, f, t);
      PageResult(t, Some(f))
  }

  /** Popping the front of the free list detaches that frame. */
  lemma DetachFront(s: Pool, t: Pool)
    requires Consistent(s) && |s.freeList| > 0
    requires t == s.(freeList := s.freeList[1..])
    ensures Detached(t, s.freeList[0])
  {
    var f := s.freeList[0];
    assert forall i :: 0 <= i < |t.freeList| ==> t.freeList[i] == s.freeList[i + 1];
    assert f !in t.freeList;
    forall g | 0 <= g < |t.frames| && g != f
      ensures Accounted(t.pageTable, t.freeList, g)
    {
      assert Accounted(s.pageTable, s.freeList, g);
      if g in s.freeList {
        var i :| 0 <= i < |s.freeList| && s.freeList[i] == g;
        assert t.freeList[i - 1] == g;
      }
    }
  }

  /** Dropping the page-table entry of a resident frame detaches it. */
  lemma DetachVictim(s: Pool, f: int, t: Pool)
    requires Consistent(s) && |s.freeList| == 0 && 0 <= f < |s.frames|
    requires s.frames[f].pageId in s.pageTable && s.pageTable[s.frames[f].pageId] == f
    requires t.pageTable == s.pageTable - {s.frames[f].pageId}
    requires t.frames == s.frames[f := s.frames[f].(isDirty := false)]
    requires t.freeList == []
    ensures Detached(t, f)
  {
    var evicted := s.frames[f].pageId;
    forall g | 0 <= g < |t.frames| && g != f
      ensures Accounted(t.pageTable, t.freeList, g)
    {
      assert Accounted(s.pageTable, s.freeList, g);
      var p :| p in s.pageTable && s.pageTable[p] == g;
      assert p != evicted;
      assert t.pageTable[p] == g;
    }
    forall p | p in t.pageTable
      ensures t.pageTable[p] != f
    {
      assert s.pageTable[p] != f;
    }
  }

  /** std::unordered_map::insert: the entry is added only if the key is
      absent. */
  function Insert(m: map<int, int>, k: int, v: int): map<int, int> {
    if k in m then m else m[k := v]
  }

  /** Mapping a fresh page onto a detached frame restores consistency. */
  lemma InstallConsistent(t: Pool, f: int, pageId: int, frame: Frame, u: Pool)
    requires Detached(t, f) && pageId !in t.pageTable
    requires frame.pageId == pageId && frame.pinCount >= 0
    requires u.frames == t.frames[f := frame] && u.pageTable == t.pageTable[pageId := f]
    requires u.freeList == t.freeList
    ensures Consistent(u)
  {
    forall g | 0 <= g < |u.frames|
      ensures Accounted(u.pageTable, u.freeList, g)
    {
      if g == f {
        assert u.pageTable[pageId] == f;
      } else {
        assert Accounted(t.pageTable, t.freeList, g);
        if Maps(t.pageTable, g) {
          var p :| p in t.pageTable && t.pageTable[p] == g;
          assert u.pageTable[p] == g;
        }
      }
    }
    forall i, p | 0 <= i < |u.freeList| && p in u.pageTable
      ensures u.pageTable[p] != u.freeList[i]
    {
      assert u.freeList[i] != f;
    }
  }

  /** FetchPageImpl.  A hit pins the frame once more.  A miss takes a frame
      (AcquireFrame), reads the page into it and maps it with one pin; it
      returns nullptr when the free list is empty and the replacer has no
      victim. */
  function FetchPage(s: Pool, pageId: int, victim: Option<int>): (r: PageResult)
    requires Consistent(s) && ValidVictim(s, victim)
    ensures Consistent(r.pool) && |r.pool.frames| == |s.frames|
    ensures pageId in s.pageTable ==>
      var f := s.pageTable[pageId];
      && r.frame == Some(f)
      && r.pool.pageTable == s.pageTable && r.pool.freeList == s.freeList
      && r.pool.disk == s.disk && r.pool.replacer == s.replacer + [PinCall(f)]
      && r.pool.frames[f] == s.frames[f].(pinCount := s.frames[f].pinCount + 1)
      && forall g :: 0 <= g < |s.frames| && g != f ==> r.pool.frames[g] == s.frames[g]
    ensures r.frame.None? <==> pageId !in s.pageTable && |s.freeList| == 0 && victim.None?
    ensures r.frame.None? ==>
      && r.pool.frames == s.frames && r.pool.pageTable == s.pageTable
      && r.pool.freeList == s.freeList && r.pool.disk == s.disk
      && r.pool.replacer == s.replacer + [VictimCall(None)]
    ensures r.frame.Some? ==> 0 <= r.frame.value < |s.frames|
    ensures pageId !in s.pageTable && r.frame.Some? ==>
      var f := r.frame.value;
      var evicted := s.frames[f].pageId;
      && r.pool.frames[f] == Frame(pageId, 1, false)
      && (forall g :: 0 <= g < |s.frames| && g != f ==> r.pool.frames[g] == s.frames[g])
      && (|s.freeList| > 0 ==>
            && f == s.freeList[0] && r.pool.freeList == s.freeList[1..]
            && r.pool.pageTable == s.pageTable[pageId := f]
            && r.pool.disk == s.disk + [ReadPage(pageId)]
            && r.pool.replacer == s.replacer + [PinCall(f)])
      && (|s.freeList| == 0 ==>
            && Some(f) == victim && r.pool.freeList == []
            && evicted in s.pageTable && s.pageTable[evicted] == f
            && r.pool.pageTable == (s.pageTable - {evicted})[pageId := f]
            && r.pool.disk == s.disk + (if s.frames[f].isDirty then [WritePage(evicted)] else []) + [ReadPage(pageId)]
            && r.pool.replacer == s.replacer + [VictimCall(victim), PinCall(f)])
  {
    if pageId in s.pageTable then
      var f := s.pageTable[pageId];
      assert forall i :: 0 <= i < |s.freeList| ==> s.freeList[i] != f;
      PageResult(s.(frames := s.frames[f := s.frames[f].(pinCount := s.frames[f].pinCount + 1)],
                    replacer := s.replacer + [PinCall(f)]), Some(f))
    else
      var a := AcquireFrame(s, victim);
      if a.frame.None? then
        PageResult(a.pool, None)
      else
        var f := a.frame.value;
        var t := a.pool;
        var u := t.(frames := t.frames[f := t.frames[f].(pageId := pageId, pinCount := 1)],
                    pageTable := Insert(t.pageTable, pageId, f),
                    disk := t.disk + [ReadPage(pageId)],
                    replacer := t.replacer + [PinCall(f)]);
        InstallConsistent(t, f, pageId, u.frames[f], u);
        PageResult(u, Some(f))
  }

  /** UnpinPageImpl: fails without any change when the page is not resident
      or not pinned; otherwise drops one pin, overwrites the dirty flag with
      the argument, and tells the replacer once the count reaches zero. */
  function UnpinPage(s: Pool, pageId: int, isDirty: bool): (r: BoolResult)
    requires Consistent(s)
    ensures Consistent(r.pool)
    ensures r.ok <==> pageId in s.pageTable && s.frames[s.pageTable[pageId]].pinCount > 0
    ensures !r.ok ==> r.pool == s
    ensures r.ok ==>
      var f := s.pageTable[pageId];
      && r.pool.pageTable == s.pageTable && r.pool.freeList == s.freeList && r.pool.disk == s.disk
      && |r.pool.frames| == |s.frames|
      && r.pool.frames[f] == Frame(pageId, s.frames[f].pinCount - 1, isDirty)
      && (forall g :: 0 <= g < |s.frames| && g != f ==> r.pool.frames[g] == s.frames[g])
      && r.pool.replacer == s.replacer + (if s.frames[f].pinCount == 1 then [UnpinCall(f)] else [])
  {
    if pageId !in s.pageTable || s.frames[s.pageTable[pageId]].pinCount <= 0 then
      BoolResult(s, false)
    else
      BoolResult(ReleasePin(s, s.pageTable[pageId], isDirty), true)
  }

  /** Drop one pin of resident frame f and give it dirty flag isDirty; the
      replacer hears of it when the count reaches zero. */
  function ReleasePin(s: Pool, f: int, isDirty: bool): (t: Pool)
    requires Consistent(s) && 0 <= f < |s.frames| && Maps(s.pageTable, f) && s.frames[f].pinCount > 0
    ensures Consistent(t)
  {
    var t := s.(frames := s.frames[f := s.frames[f].(pinCount := s.frames[f].pinCount - 1, isDirty := isDirty)]);
    assert forall i :: 0 <= i < |s.freeList| ==> s.freeList[i] != f;
    if t.frames[f].pinCount == 0 then t.(replacer := t.replacer + [UnpinCall(f)]) else t
  }

  /** Step 3 of DeletePageImpl: unmap the page held by frame f, put f at the
      back of the free list and reset its metadata.  The replacer is not
      told, so f stays whatever candidate it was. */
  function RemoveFrame(s: Pool, f: int): (t: Pool)
    requires Consistent(s) && 0 <= f < |s.frames| && Maps(s.pageTable, f)
    ensures Consistent(t)
  {
    var pageId := s.frames[f].pageId;
    ResidentFrame(s, f);
    var t := s.(freeList := s.freeList + [f],
                pageTable := s.pageTable - {pageId},
                frames := s.frames[f := EmptyFrame]);
    RemoveConsistent(s, f, t);
    t
  }

  lemma RemoveConsistent(s: Pool, f: int, t: Pool)
    requires Consistent(s) && 0 <= f < |s.frames|
    requires s.frames[f].pageId in s.pageTable && s.pageTable[s.frames[f].pageId] == f
    requires t.freeList == s.freeList + [f]
    requires t.pageTable == s.pageTable - {s.frames[f].pageId}
    requires t.frames == s.frames[f := EmptyFrame]
    ensures Consistent(t)
  {
    var pageId := s.frames[f].pageId;
    forall p | p in t.pageTable
      ensures t.pageTable[p] != f
    {
      assert s.pageTable[p] != f;
    }
    assert forall i :: 0 <= i < |s.freeList| ==> s.freeList[i] != f;
    forall g | 0 <= g < |t.frames|
      ensures Accounted(t.pageTable, t.freeList, g)
    {
      if g == f {
        assert t.freeList[|s.freeList|] == f;
      } else {
        assert Accounted(s.pageTable, s.freeList, g);
        if g in s.freeList {
          var i :| 0 <= i < |s.freeList| && s.freeList[i] == g;
          assert t.freeList[i] == g;
        } else {
          var p :| p in s.pageTable && s.pageTable[p] == g;
          assert p != pageId;
          assert t.pageTable[p] == g;
        }
      }
    }
  }

  /** DeletePageImpl as written.  A page that is not resident is
      deallocated on disk and reported with true; a pinned page is left
      alone and reported with false; an unpinned page is removed from the
      pool (RemoveFrame), and that success is also reported with false. */
  function DeletePage(s: Pool, pageId: int): (r: BoolResult)
    requires Consistent(s)
    ensures Consistent(r.pool)
    ensures pageId !in s.pageTable ==>
      r.ok && r.pool == s.(disk := s.disk + [DeallocatePage(pageId)])
    ensures pageId in s.pageTable ==> !r.ok
    ensures pageId in s.pageTable && s.frames[s.pageTable[pageId]].pinCount > 0 ==> r.pool == s
    ensures pageId in s.pageTable && s.frames[s.pageTable[pageId]].pinCount == 0 ==>
      var f := s.pageTable[pageId];
      && pageId !in r.pool.pageTable
      && r.pool.pageTable == s.pageTable - {pageId}
      && r.pool.freeList == s.freeList + [f]
      && r.pool.frames == s.frames[f := EmptyFrame]
      && r.pool.disk == s.disk && r.pool.replacer == s.replacer
  {
    if pageId !in s.pageTable then
      BoolResult(s.(disk := s.disk + [DeallocatePage(pageId)]), true)
    else if s.frames[s.pageTable[pageId]].pinCount > 0 then
      BoolResult(s, false)
    else
      BoolResult(RemoveFrame(s, s.pageTable[pageId]), false)
  }

  /** UnpinPageImpl as its bookkeeping intends: the dirty flag is OR-ed
      with the argument, so an unpin that did not modify the page cannot
      hide an earlier holder's modification. */
  function UnpinPageIntended(s: Pool, pageId: int, isDirty: bool): (r: BoolResult)
    requires Consistent(s)
    ensures Consistent(r.pool)
    ensures r.ok <==> pageId in s.pageTable && s.frames[s.pageTable[pageId]].pinCount > 0
    ensures !r.ok ==> r.pool == s
    ensures r.ok ==>
      var f := s.pageTable[pageId];
      && r.pool == UnpinPage(s, pageId, s.frames[f].isDirty || isDirty).pool
      && r.pool.frames[f] == Frame(pageId, s.frames[f].pinCount - 1, s.frames[f].isDirty || isDirty)
    ensures |r.pool.frames| == |s.frames|
    ensures forall f :: 0 <= f < |s.frames| && s.frames[f].isDirty ==> r.pool.frames[f].isDirty
  {
    if pageId !in s.pageTable || s.frames[s.pageTable[pageId]].pinCount <= 0 then
      BoolResult(s, false)
    else
      var f := s.pageTable[pageId];
      BoolResult(ReleasePin(s, f, s.frames[f].isDirty || isDirty), true)
  }

  /** DeletePageImpl as its step comments describe it: the same transitions,
      but the removal of an unpinned page is reported with true, so the
      answer says whether the page is gone from the pool. */
  function DeletePageIntended(s: Pool, pageId: int): (r: BoolResult)
    requires Consistent(s)
    ensures Consistent(r.pool)
    ensures r.pool == DeletePage(s, pageId).pool
    ensures r.ok <==> pageId !in r.pool.pageTable
  {
    if pageId !in s.pageTable then
      BoolResult(s.(disk := s.disk + [DeallocatePage(pageId)]), true)
    else if s.frames[s.pageTable[pageId]].pinCount > 0 then
      BoolResult(s, false)
    else
      BoolResult(RemoveFrame(s, s.pageTable[pageId]), true)
  }

  /** NewPageImpl: take a frame like a fetch miss (AcquireFrame); only then
      ask the disk manager for a page id (newId is its answer), map it onto
      the frame with one pin and a clean flag.  Returns nullptr, without
      allocating, when the free list is empty and the replacer has no
      victim.  Consistency needs the new id not to be resident already. */
  function NewPage(s: Pool, newId: int, victim: Option<int>): (r: PageResult)
    requires Consistent(s) && ValidVictim(s, victim)
    ensures |r.pool.frames| == |s.frames|
    ensures r.frame.None? <==> |s.freeList| == 0 && victim.None?
    ensures r.frame.None? ==>
      && r.pool.frames == s.frames && r.pool.pageTable == s.pageTable
      && r.pool.freeList == s.freeList && r.pool.disk == s.disk
      && r.pool.replacer == s.replacer + [VictimCall(None)]
    ensures newId !in s.pageTable ==> Consistent(r.pool)
    ensures r.frame.Some? ==> 0 <= r.frame.value < |s.frames|
    ensures newId !in s.pageTable && r.frame.Some? ==>
      var f := r.frame.value;
      var evicted := s.frames[f].pageId;
      && r.pool.frames[f] == Frame(newId, 1, false)
      && (forall g :: 0 <= g < |s.frames| && g != f ==> r.pool.frames[g] == s.frames[g])
      && (|s.freeList| > 0 ==>
            && f == s.freeList[0] && r.pool.freeList == s.freeList[1..]
            && r.pool.pageTable == s.pageTable[newId := f]
            && r.pool.disk == s.disk + [AllocatePage(newId)]
            && r.pool.replacer == s.replacer + [PinCall(f)])
      && (|s.freeList| == 0 ==>
            && Some(f) == victim && r.pool.freeList == []
            && evicted in s.pageTable && s.pageTable[evicted] == f
            && r.pool.pageTable == (s.pageTable - {evicted})[newId := f]
            && r.pool.disk == s.disk + (if s.frames[f].isDirty then [WritePage(evicted)] else []) + [AllocatePage(newId)]
            && r.pool.replacer == s.replacer + [VictimCall(victim), PinCall(f)])
  {
    var a := AcquireFrame(s, victim);
    if a.frame.None? then
      PageResult(a.pool, None)
    else
      var f := a.frame.value;
      var t := a.pool;
      var u := t.(frames := t.frames[f := Frame(newId, 1, false)],
                  pageTable := Insert(t.pageTable, newId, f),
                  disk := t.disk + [AllocatePage(newId)],
                  replacer := t.replacer + [PinCall(f)]);
      if newId !in s.pageTable then
        InstallConsistent(t, f, newId, u.frames[f], u);
        PageResult(u, Some(f))
      else
        PageResult(u, Some(f))
  }

  /** A disk call FlushAllPagesImpl may make on pool s: writing back a
      resident page whose frame is dirty. */
  ghost predicate WriteOfDirtyPage(s: Pool, c: DiskCall) {
    && c.WritePage? && c.pageId in s.pageTable
    && 0 <= s.pageTable[c.pageId] < |s.frames| && s.frames[s.pageTable[c.pageId]].isDirty
  }

  /** FlushAllPagesImpl: flush the page id held by every frame in turn.
      Afterwards every frame is clean and nothing else about the frames,
      the page table or the free list has changed; the disk has received
      exactly one write for each page that was resident and dirty. */
  method FlushAllPages(s: Pool) returns (s': Pool)
    requires Consistent(s)
    ensures Consistent(s')
    ensures s'.pageTable == s.pageTable && s'.freeList == s.freeList && s'.replacer == s.replacer
    ensures |s'.frames| == |s.frames|
    ensures forall f :: 0 <= f < |s.frames| ==> s'.frames[f] == s.frames[f].(isDirty := false)
    ensures |s'.disk| >= |s.disk| && s'.disk[..|s.disk|] == s.disk
    ensures forall k :: |s.disk| <= k < |s'.disk| ==> WriteOfDirtyPage(s, s'.disk[k])
    ensures forall p :: p in s.pageTable && s.frames[s.pageTable[p]].isDirty ==>
      WritePage(p) in s'.disk[|s.disk|..]
    ensures forall k, l :: |s.disk| <= k < l < |s'.disk| ==> s'.disk[k] != s'.disk[l]
  {
    s' := s;
    ghost var written: seq<DiskCall> := [];
    var i := 0;
    while i < |s.frames|
      invariant 0 <= i <= |s.frames|
      invariant FlushedSoFar(s, s', written)
      invariant forall f :: 0 <= f < i ==> !s'.frames[f].isDirty
    {
      var prev := s';
      var pid := s'.frames[i].pageId;
      s' := FlushPage(s', pid).pool;
      if s'.disk != prev.disk {
        FlushedOneMore(s, prev, written, pid, s');
        written := written + [WritePage(pid)];
      }
      FlushedFrameClean(prev, i, s');
      i := i + 1;
    }
    assert s'.disk[|s.disk|..] == written;
  }

  /** What FlushAllPagesImpl has done to s once it has produced s' and the
      writes in written: frames only got cleaner, and each write went to a
      distinct page that was resident and dirty in s and is clean now; every
      such page now clean has been written. */
  ghost predicate FlushedSoFar(s: Pool, s': Pool, written: seq<DiskCall>) {
    && Consistent(s) && Consistent(s')
    && s'.pageTable == s.pageTable && s'.freeList == s.freeList && s'.replacer == s.replacer
    && |s'.frames| == |s.frames|
    && (forall f :: 0 <= f < |s.frames| ==>
          s'.frames[f].pageId == s.frames[f].pageId && s'.frames[f].pinCount == s.frames[f].pinCount)
    && (forall f :: 0 <= f < |s.frames| && s'.frames[f].isDirty ==> s.frames[f].isDirty)
    && s'.disk == s.disk + written
    && (forall k :: 0 <= k < |written| ==>
          WriteOfDirtyPage(s, written[k]) && !s'.frames[s.pageTable[written[k].pageId]].isDirty)
    && (forall p :: p in s.pageTable && s.frames[s.pageTable[p]].isDirty && !s'.frames[s.pageTable[p]].isDirty ==>
          WritePage(p) in written)
    && (forall k, l :: 0 <= k < l < |written| ==> written[k] != written[l])
  }

  /** A flush that writes extends the record by that write. */
  lemma FlushedOneMore(s: Pool, prev: Pool, written: seq<DiskCall>, pid: int, next: Pool)
    requires FlushedSoFar(s, prev, written)
    requires next == FlushPage(prev, pid).pool && next.disk != prev.disk
    ensures FlushedSoFar(s, next, written + [WritePage(pid)])
  {
    var g := prev.pageTable[pid];
    assert prev.frames[g].isDirty;
  }

  /** Flushing the page id a frame holds leaves that frame clean. */
  lemma FlushedFrameClean(prev: Pool, i: int, next: Pool)
    requires Consistent(prev) && 0 <= i < |prev.frames|
    requires next == FlushPage(prev, prev.frames[i].pageId).pool
    ensures !next.frames[i].isDirty
  {
    assert Accounted(prev.pageTable, prev.freeList, i);
    if Maps(prev.pageTable, i) {
      ResidentFrame(prev, i);
    } else {
      var k :| 0 <= k < |prev.freeList| && prev.freeList[k] == i;
    }
  }
}
