/** Properties of the buffer pool that relate several operations, the
    defects of the code as written, and a worked run of a two-frame pool. */
module BufferPoolProperties {

  import opened Wrappers
  import opened BufferPoolManager

  /** A second flush of the same page finds it clean: it reports the same
      answer, writes nothing and changes nothing. */
  lemma FlushTwiceWritesOnce(s: Pool, pageId: int)
    requires Consistent(s)
    ensures var once := FlushPage(s, pageId);
      FlushPage(once.pool, pageId) == once
  {
    var once := FlushPage(s, pageId).pool;
    var twice := FlushPage(once, pageId).pool;
    assert twice.frames == once.frames;
  }

  /** Fetching a resident page and unpinning it again restores its pin
      count; the replacer hears Pin and, when the count returns to zero,
      Unpin. */
  lemma FetchHitThenUnpin(s: Pool, pageId: int, victim: Option<int>, isDirty: bool)
    requires Consistent(s) && ValidVictim(s, victim) && pageId in s.pageTable
    ensures var f := s.pageTable[pageId];
      var fetched := FetchPage(s, pageId, victim).pool;
      var r := UnpinPage(fetched, pageId, isDirty);
      && r.ok
      && r.pool.frames[f].pinCount == s.frames[f].pinCount
      && r.pool.pageTable == s.pageTable && r.pool.freeList == s.freeList && r.pool.disk == s.disk
      && r.pool.replacer == s.replacer + [PinCall(f)] + (if s.frames[f].pinCount == 0 then [UnpinCall(f)] else [])
  {
    var f := s.pageTable[pageId];
    var fetched := FetchPage(s, pageId, victim).pool;
    assert fetched.pageTable[pageId] == f;
    assert fetched.frames[f].pinCount == s.frames[f].pinCount + 1;
  }

  /** Once the free list has run dry, deleting an unpinned resident page
      makes its frame the one the next miss loads into, without asking the
      replacer and without any write-back. */
  lemma DeleteThenFetchReusesFrame(s: Pool, p: int, q: int, victim: Option<int>)
    requires Consistent(s) && ValidVictim(s, victim) && |s.freeList| == 0
    requires p in s.pageTable && s.frames[s.pageTable[p]].pinCount == 0
    requires q !in s.pageTable && q != p
    ensures var f := s.pageTable[p];
      var deleted := DeletePage(s, p).pool;
      var r := FetchPage(deleted, q, victim);
      && r.frame == Some(f)
      && r.pool.frames[f] == Frame(q, 1, false)
      && r.pool.pageTable == (s.pageTable - {p})[q := f]
      && r.pool.freeList == []
      && r.pool.disk == s.disk + [ReadPage(q)]
      && r.pool.replacer == s.replacer + [PinCall(f)]
  {
    var f := s.pageTable[p];
    var deleted := DeletePage(s, p).pool;
    assert deleted.freeList == [f];
    assert q !in deleted.pageTable;
    var r := FetchPage(deleted, q, victim);
    assert deleted.freeList[1..] == [];
  }

  // ---------------------------------------------------------------------
  // Defects of the code as written.
  // ---------------------------------------------------------------------

  /** One frame holding page 7, pinned by two holders, clean. */
  const SharedPage: Pool := Pool([Frame(7, 2, false)], map[7 := 0], [], [], [])

  /** One frame holding page 7, unpinned, clean. */
  const IdlePage: Pool := Pool([Frame(7, 0, false)], map[7 := 0], [], [], [])

  lemma SmallPoolsConsistent()
    ensures Consistent(SharedPage) && Consistent(IdlePage)
  {
    assert Accounted(SharedPage.pageTable, SharedPage.freeList, 0) by {
      assert SharedPage.pageTable[7] == 0;
    }
    assert Accounted(IdlePage.pageTable, IdlePage.freeList, 0) by {
      assert IdlePage.pageTable[7] == 0;
    }
  }

  /** The first holder modifies the page and unpins it dirty; the second
      unpins it clean.  As written the page ends up clean with no
      write-back, so evicting it later loses the modification. */
  lemma UnpinForgetsEarlierModification()
    requires Consistent(SharedPage)
    ensures var first := UnpinPage(SharedPage, 7, true).pool;
      && first.frames[0].isDirty
      && !UnpinPage(first, 7, false).pool.frames[0].isDirty
      && UnpinPage(first, 7, false).pool.disk == []
  {
  }

  /** The same two unpins under the intended rule keep the page dirty. */
  lemma UnpinIntendedKeepsModification()
    requires Consistent(SharedPage)
    ensures var first := UnpinPageIntended(SharedPage, 7, true).pool;
      UnpinPageIntended(first, 7, false).pool.frames[0].isDirty
  {
  }

  /** Deleting the only, unpinned page of a one-frame pool removes it and
      still answers false; the intended variant answers true. */
  lemma DeleteReportsSuccessAsFailure()
    requires Consistent(IdlePage)
    ensures 7 !in DeletePage(IdlePage, 7).pool.pageTable
    ensures !DeletePage(IdlePage, 7).ok
    ensures DeletePageIntended(IdlePage, 7).ok
  {
  }

  // ---------------------------------------------------------------------
  // A two-frame pool: both frames pinned, then one released and reused.
  // ---------------------------------------------------------------------

  /** Two empty frames, both on the free list. */
  const TwoFree: Pool := Pool([EmptyFrame, EmptyFrame], map[], [0, 1], [], [])

  lemma TwoFreeConsistent()
    ensures Consistent(TwoFree)
  {
    assert Accounted(TwoFree.pageTable, TwoFree.freeList, 0) by { assert TwoFree.freeList[0] == 0; }
    assert Accounted(TwoFree.pageTable, TwoFree.freeList, 1) by { assert TwoFree.freeList[1] == 1; }
  }

  /** Pages a and b created in turn, both still pinned. */
  function BothPinned(a: int, b: int): Pool {
    Pool([Frame(a, 1, false), Frame(b, 1, false)], map[a := 0, b := 1], [],
         [AllocatePage(a), AllocatePage(b)], [PinCall(0), PinCall(1)])
  }

  /** New pages a and b take frames 0 and 1 from the free list. */
  lemma NewTwoPages(a: int, b: int)
    requires a != b && Consistent(TwoFree)
    ensures NewPage(TwoFree, a, None).frame == Some(0)
    ensures NewPage(NewPage(TwoFree, a, None).pool, b, None) == PageResult(BothPinned(a, b), Some(1))
  {
    var n1 := NewPage(TwoFree, a, None);
    assert n1.pool == Pool([Frame(a, 1, false), EmptyFrame], map[a := 0], [1], [AllocatePage(a)], [PinCall(0)]);
    var n2 := NewPage(n1.pool, b, None);
    assert n2.pool.frames == BothPinned(a, b).frames;
  }

  /** With both frames pinned and no victim a fetch of c gets nullptr; once
      a is unpinned clean and the replacer offers frame 0, the fetch of c
      evicts a without writing it back. */
  lemma FetchWhenFull(a: int, b: int, c: int)
    requires a != b && c != a && c != b && Consistent(BothPinned(a, b))
    ensures FetchPage(BothPinned(a, b), c, None).frame.None?
    ensures var full := FetchPage(BothPinned(a, b), c, None).pool;
      var unpinned := UnpinPage(full, a, false);
      var hit := FetchPage(unpinned.pool, c, Some(0));
      && unpinned.ok
      && hit.frame == Some(0)
      && hit.pool.pageTable == map[b := 1, c := 0]
      && hit.pool.disk == [AllocatePage(a), AllocatePage(b), ReadPage(c)]
  {
    var full := FetchPage(BothPinned(a, b), c, None).pool;
    var unpinned := UnpinPage(full, a, false);
    assert unpinned.pool.frames[0] == Frame(a, 0, false);
    var hit := FetchPage(unpinned.pool, c, Some(0));
    assert hit.pool.pageTable == (map[a := 0, b := 1] - {a})[c := 0];
    assert (map[a := 0, b := 1] - {a})[c := 0] == map[b := 1, c := 0];
  }
}
