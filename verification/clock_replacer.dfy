/** The live CLOCK replacer of src/buffer/clock_replacer.cpp.

    The C++ keeps its state in file-scope globals: the page count, the clock
    hand and a singly linked list with one status per node.  Here those
    globals are one immutable value, the list is a sequence of statuses, and
    every operation is a transition from one value to the next.

    Frame ids reach list nodes through getFrameIndex, which walks
    max(id, 1) - 1 links from the head: frame ids 0 and 1 share the head
    node, and frame id f >= 1 owns node f - 1. */
module ClockReplacer {

  import opened Wrappers

  /** Pinned, evicted or never unpinned: not a replacement candidate. */
  const NotCandidate: int := -1
  /** Unpinned and out of second chances: the next scan evicts it. */
  const Evictable: int := 0
  /** Unpinned and still holding its second chance. */
  const SecondChance: int := 1

  /** Victim gives up after looking at this many positions. */
  const MaxRounds: nat := 20

  predicate IsStatus(s: int) {
    s == NotCandidate || s == Evictable || s == SecondChance
  }

  predicate IsCandidate(s: int) {
    s == Evictable || s == SecondChance
  }

  /** The globals totalPAges, clockHand and the list head..tail. */
  datatype Replacer = Replacer(totalPages: int, clockHand: int, nodes: seq<int>)

  /** The globals before any replacer is constructed: totalPAges is
      zero-initialised, clockHand starts at 1 and the list is empty. */
  const Fresh: Replacer := Replacer(0, 1, [])

  /** The states on which Victim is defined: the hand only ever names nodes
      0 .. totalPages - 2, and those exist. */
  ghost predicate Valid(r: Replacer) {
    && 2 <= r.totalPages <= |r.nodes|
    && 1 <= r.clockHand < r.totalPages
    && forall p :: 0 <= p < |r.nodes| ==> IsStatus(r.nodes[p])
  }

  /** Positions of the nodes that Size counts. */
  ghost function Candidates(nodes: seq<int>): set<int> {
    set p | 0 <= p < |nodes| && IsCandidate(nodes[p])
  }

  /** The node getFrameIndex(value) stops at. */
  function NodeIndex(value: int): nat {
    if value <= 1 then 0 else value - 1
  }

  /** getFrameIndex: start at the head with c = 1 and follow one link per
      step while c < value.  Every link followed must exist. */
  method GetFrameIndex(nodes: seq<int>, value: int) returns (p: nat)
    requires NodeIndex(value) < |nodes|
    ensures p < |nodes|
    ensures value <= 1 ==> p == 0
    ensures value > 1 ==> p == value - 1
  {
    var c := 1;
    p := 0;
    while c < value
      invariant 1 <= c
      invariant c == 1 || c <= value
      invariant p == c - 1
    {
      p := p + 1;
      c := c + 1;
    }
  }

  /** The constructor: totalPAges takes the new page count and initlizer
      appends that many NotCandidate nodes at the tail of the global list.
      clockHand is a global too, so it is not reset. */
  function Construct(g: Replacer, numPages: nat): (r: Replacer)
    ensures r.totalPages == numPages && r.clockHand == g.clockHand
    ensures |r.nodes| == |g.nodes| + numPages
    ensures forall p :: 0 <= p < |g.nodes| ==> r.nodes[p] == g.nodes[p]
    ensures forall p :: |g.nodes| <= p < |r.nodes| ==> r.nodes[p] == NotCandidate
  {
    Replacer(numPages, g.clockHand, g.nodes + seq(numPages, _ => NotCandidate))
  }

  /** A replacer built once in a fresh process is valid for two or more
      pages and starts with no candidates. */
  lemma ConstructFresh(numPages: nat)
    requires numPages >= 2
    ensures Valid(Construct(Fresh, numPages))
    ensures |Construct(Fresh, numPages).nodes| == numPages
    ensures Candidates(Construct(Fresh, numPages).nodes) == {}
  {
    var r := Construct(Fresh, numPages);
    assert forall p :: 0 <= p < |r.nodes| ==> r.nodes[p] == NotCandidate;
  }

  /** Changing one status changes Candidates by at most that position. */
  lemma CandidatesUpdate(nodes: seq<int>, p: int, s: int)
    requires 0 <= p < |nodes|
    ensures IsCandidate(s) ==> Candidates(nodes[p := s]) == Candidates(nodes) + {p}
    ensures !IsCandidate(s) ==> Candidates(nodes[p := s]) == Candidates(nodes) - {p}
  {
  }

  /** Pin: the node of frameId stops being a candidate; nothing else moves. */
  function Pin(r: Replacer, frameId: int): (r': Replacer)
    requires NodeIndex(frameId) < |r.nodes|
    ensures r'.totalPages == r.totalPages && r'.clockHand == r.clockHand
    ensures |r'.nodes| == |r.nodes|
    ensures r'.nodes[NodeIndex(frameId)] == NotCandidate
    ensures forall p :: 0 <= p < |r.nodes| && p != NodeIndex(frameId) ==> r'.nodes[p] == r.nodes[p]
    ensures Candidates(r'.nodes) == Candidates(r.nodes) - {NodeIndex(frameId)}
    ensures Valid(r) ==> Valid(r')
  {
    var p := NodeIndex(frameId);
    CandidatesUpdate(r.nodes, p, NotCandidate);
    r.(nodes := r.nodes[p := NotCandidate])
  }

  /** Unpin: NotCandidate becomes SecondChance, SecondChance becomes
      Evictable, Evictable stays; nothing else moves. */
  function Unpin(r: Replacer, frameId: int): (r': Replacer)
    requires NodeIndex(frameId) < |r.nodes|
    ensures r'.totalPages == r.totalPages && r'.clockHand == r.clockHand
    ensures |r'.nodes| == |r.nodes|
    ensures forall p :: 0 <= p < |r.nodes| && p != NodeIndex(frameId) ==> r'.nodes[p] == r.nodes[p]
    ensures var p := NodeIndex(frameId);
      && (r.nodes[p] == NotCandidate ==> r'.nodes[p] == SecondChance)
      && (r.nodes[p] == SecondChance ==> r'.nodes[p] == Evictable)
      && (r.nodes[p] == Evictable ==> r'.nodes[p] == Evictable)
      && (!IsStatus(r.nodes[p]) ==> r'.nodes[p] == r.nodes[p])
    ensures IsStatus(r.nodes[NodeIndex(frameId)]) ==>
      Candidates(r'.nodes) == Candidates(r.nodes) + {NodeIndex(frameId)}
    ensures Valid(r) ==> Valid(r')
  {
    var p := NodeIndex(frameId);
    if r.nodes[p] == SecondChance then
      CandidatesUpdate(r.nodes, p, Evictable);
      r.(nodes := r.nodes[p := Evictable])
    else if r.nodes[p] == NotCandidate then
      CandidatesUpdate(r.nodes, p, SecondChance);
      r.(nodes := r.nodes[p := SecondChance])
    else
      assert r.nodes[p := r.nodes[p]] == r.nodes;
      r
  }

  /** Size: walk the whole list and count the candidate nodes. */
  method Size(r: Replacer) returns (n: nat)
    ensures n == |Candidates(r.nodes)|
    ensures n <= |r.nodes|
  {
    n := 0;
    var i := 0;
    while i < |r.nodes|
      invariant 0 <= i <= |r.nodes|
      invariant n == |Candidates(r.nodes[..i])|
      invariant n <= i
    {
      CandidatesSnoc(r.nodes, i);
      if IsCandidate(r.nodes[i]) {
        n := n + 1;
      }
      i := i + 1;
    }
    assert r.nodes[..i] == r.nodes;
  }

  /** Extending a prefix by one node adds at most that node's position. */
  lemma CandidatesSnoc(nodes: seq<int>, i: int)
    requires 0 <= i < |nodes|
    ensures IsCandidate(nodes[i]) ==> Candidates(nodes[..i + 1]) == Candidates(nodes[..i]) + {i}
    ensures !IsCandidate(nodes[i]) ==> Candidates(nodes[..i + 1]) == Candidates(nodes[..i])
    ensures i !in Candidates(nodes[..i])
  {
  }

  // ---------------------------------------------------------------------
  // The scan of Victim, described without reference to its loop.
  // ---------------------------------------------------------------------

  /** clockHand++ followed by the wrap back to 1 when it reaches totalPAges. */
  function NextHand(totalPages: int, hand: int): int {
    if hand + 1 == totalPages then 1 else hand + 1
  }

  /** The hand value at the k-th position a scan starting from r looks at. */
  ghost function HandAt(r: Replacer, k: nat): (hand: int)
    requires Valid(r)
    ensures 1 <= hand < r.totalPages
    decreases k
  {
    if k == 0 then r.clockHand else NextHand(r.totalPages, HandAt(r, k - 1))
  }

  /** Node p is among the first k positions the scan from r looks at. */
  ghost predicate ScannedBefore(r: Replacer, k: nat, p: int)
    requires Valid(r)
  {
    exists j: nat :: j < k && NodeIndex(HandAt(r, j)) == p
  }

  /** The statuses once the scan from r has looked at k positions without
      evicting: every SecondChance node it passed is now Evictable. */
  ghost function Aged(r: Replacer, k: nat): (nodes: seq<int>)
    requires Valid(r)
    ensures |nodes| == |r.nodes|
    ensures forall p :: 0 <= p < |nodes| ==>
      nodes[p] == r.nodes[p] || (r.nodes[p] == SecondChance && nodes[p] == Evictable)
    ensures forall p :: r.totalPages - 1 <= p < |nodes| ==> nodes[p] == r.nodes[p]
    ensures Candidates(nodes) == Candidates(r.nodes)
  {
    seq(|r.nodes|, p requires 0 <= p < |r.nodes| =>
      if r.nodes[p] == SecondChance && ScannedBefore(r, k, p) then Evictable else r.nodes[p])
  }

  /** The status the scan from r finds at its k-th position. */
  ghost function StatusSeen(r: Replacer, k: nat): int
    requires Valid(r)
  {
    Aged(r, k)[NodeIndex(HandAt(r, k))]
  }

  /** The k-th position is the first one at which the scan finds Evictable. */
  ghost predicate FirstEvictable(r: Replacer, k: nat)
    requires Valid(r)
  {
    && k < MaxRounds
    && StatusSeen(r, k) == Evictable
    && forall j: nat :: j < k ==> StatusSeen(r, j) != Evictable
  }

  /** Before the scan looks anywhere, nothing has aged. */
  lemma AgedNone(r: Replacer)
    requires Valid(r)
    ensures Aged(r, 0) == r.nodes
  {
    assert forall p :: 0 <= p < |r.nodes| ==> !ScannedBefore(r, 0, p);
  }

  /** Looking at one more position ages exactly the node under the hand. */
  lemma AgeStep(r: Replacer, k: nat)
    requires Valid(r)
    ensures var p := NodeIndex(HandAt(r, k));
      Aged(r, k + 1) == if Aged(r, k)[p] == SecondChance then Aged(r, k)[p := Evictable] else Aged(r, k)
  {
    var p := NodeIndex(HandAt(r, k));
    forall q | 0 <= q < |r.nodes|
      ensures ScannedBefore(r, k + 1, q) <==> ScannedBefore(r, k, q) || q == p
    {
      if ScannedBefore(r, k + 1, q) {
        var j: nat :| j < k + 1 && NodeIndex(HandAt(r, j)) == q;
        if j < k {
          assert ScannedBefore(r, k, q);
        }
      }
      if q == p {
        assert NodeIndex(HandAt(r, k)) == q;
      }
    }
  }

  /** What a scan that evicts at its k-th position leaves behind. */
  lemma EvictionEffect(r: Replacer, k: nat, r': Replacer)
    requires Valid(r) && FirstEvictable(r, k)
    requires r' == Replacer(r.totalPages, NextHand(r.totalPages, HandAt(r, k)),
                            Aged(r, k)[NodeIndex(HandAt(r, k)) := NotCandidate])
    ensures Valid(r')
    ensures IsCandidate(r.nodes[NodeIndex(HandAt(r, k))])
    ensures r'.nodes[NodeIndex(HandAt(r, k))] == NotCandidate
    ensures forall p :: 0 <= p < |r.nodes| && p != NodeIndex(HandAt(r, k)) ==>
      r'.nodes[p] == r.nodes[p] || (r.nodes[p] == SecondChance && r'.nodes[p] == Evictable)
    ensures forall p :: r.totalPages - 1 <= p < |r.nodes| ==> r'.nodes[p] == r.nodes[p]
    ensures |Candidates(r'.nodes)| == |Candidates(r.nodes)| - 1
  {
    var p := NodeIndex(HandAt(r, k));
    CandidatesUpdate(Aged(r, k), p, NotCandidate);
  }

  /** What a scan that gives up leaves behind. */
  lemma GiveUpEffect(r: Replacer, r': Replacer)
    requires Valid(r)
    requires r' == Replacer(r.totalPages, HandAt(r, MaxRounds - 1), Aged(r, MaxRounds))
    ensures Valid(r')
    ensures forall p :: 0 <= p < |r.nodes| ==>
      r'.nodes[p] == r.nodes[p] || (r.nodes[p] == SecondChance && r'.nodes[p] == Evictable)
    ensures forall p :: r.totalPages - 1 <= p < |r.nodes| ==> r'.nodes[p] == r.nodes[p]
    ensures |Candidates(r'.nodes)| == |Candidates(r.nodes)|
  {
  }

  /** Victim: look at the node under the hand; evict it if Evictable, age it
      if SecondChance, then advance the hand; give up after MaxRounds
      positions.  The frame id handed out is the hand value itself. */
  method Victim(r: Replacer) returns (victim: Option<int>, r': Replacer)
    requires Valid(r)
    ensures Valid(r') && r'.totalPages == r.totalPages && |r'.nodes| == |r.nodes|
    ensures victim.Some? <==> exists k: nat :: k < MaxRounds && StatusSeen(r, k) == Evictable
    ensures victim.Some? ==> exists k: nat ::
      && FirstEvictable(r, k)
      && victim.value == HandAt(r, k)
      && r'.clockHand == NextHand(r.totalPages, HandAt(r, k))
      && r'.nodes == Aged(r, k)[NodeIndex(HandAt(r, k)) := NotCandidate]
    ensures victim.None? ==>
      r'.clockHand == HandAt(r, MaxRounds - 1) && r'.nodes == Aged(r, MaxRounds)
    ensures victim.Some? ==> 1 <= victim.value < r.totalPages
    ensures victim.Some? ==>
      IsCandidate(r.nodes[NodeIndex(victim.value)]) && r'.nodes[NodeIndex(victim.value)] == NotCandidate
    ensures forall p :: 0 <= p < |r.nodes| && (victim.None? || p != NodeIndex(victim.value)) ==>
      r'.nodes[p] == r.nodes[p] || (r.nodes[p] == SecondChance && r'.nodes[p] == Evictable)
    ensures forall p :: r.totalPages - 1 <= p < |r.nodes| ==> r'.nodes[p] == r.nodes[p]
    ensures |Candidates(r'.nodes)| == if victim.Some? then |Candidates(r.nodes)| - 1 else |Candidates(r.nodes)|
  {
    var round: nat := 0;
    var hand := r.clockHand;
    var nodes := r.nodes;
    AgedNone(r);
    while true
      invariant round < MaxRounds
      invariant hand == HandAt(r, round)
      invariant nodes == Aged(r, round)
      invariant forall j: nat :: j < round ==> StatusSeen(r, j) != Evictable
      decreases MaxRounds - round
    {
      var p := GetFrameIndex(nodes, hand);
      AgeStep(r, round);
      if nodes[p] == Evictable {
        assert FirstEvictable(r, round);
        nodes := nodes[p := NotCandidate];
        victim := Some(hand);
        r' := Replacer(r.totalPages, NextHand(r.totalPages, hand), nodes);
        EvictionEffect(r, round, r');
        return;
      } else if nodes[p] == SecondChance {
        nodes := nodes[p := Evictable];
      }
      round := round + 1;
      if round == MaxRounds {
        victim := None;
        r' := Replacer(r.totalPages, hand, nodes);
        GiveUpEffect(r, r');
        return;
      }
      hand := NextHand(r.totalPages, hand);
    }
  }

  // ---------------------------------------------------------------------
  // Properties relating several operations.
  // ---------------------------------------------------------------------

  /** Frame ids 0 and 1 (and every negative id) reach the head node, so
      pinning or unpinning any of them has the same effect. */
  lemma HeadAliases(r: Replacer, frameId: int)
    requires |r.nodes| > 0 && frameId <= 1
    ensures Pin(r, frameId) == Pin(r, 0) == Pin(r, 1)
    ensures Unpin(r, frameId) == Unpin(r, 0) == Unpin(r, 1)
  {
  }

  /** Two unpins in a row leave a node Evictable whatever it was. */
  lemma UnpinTwiceEvictable(r: Replacer, frameId: int)
    requires NodeIndex(frameId) < |r.nodes| && IsStatus(r.nodes[NodeIndex(frameId)])
    ensures Unpin(Unpin(r, frameId), frameId).nodes[NodeIndex(frameId)] == Evictable
  {
  }

  /** Unpinning a pinned frame gives it its second chance back. */
  lemma PinThenUnpin(r: Replacer, frameId: int)
    requires NodeIndex(frameId) < |r.nodes|
    ensures Unpin(Pin(r, frameId), frameId).nodes[NodeIndex(frameId)] == SecondChance
  {
  }

  /** While the hand stays below the wrap point it moves up by one per step. */
  lemma {:induction false} HandAtRun(r: Replacer, k: nat, n: nat)
    requires Valid(r)
    requires HandAt(r, k) + n < r.totalPages
    ensures HandAt(r, k + n) == HandAt(r, k) + n
    decreases n
  {
    if n > 0 {
      HandAtRun(r, k, n - 1);
    }
  }

  /** The hand comes back to where it was after totalPages - 1 steps. */
  lemma {:induction false} HandAtCycle(r: Replacer, k: nat)
    requires Valid(r)
    ensures HandAt(r, k + r.totalPages - 1) == HandAt(r, k)
  {
    var m := r.totalPages - 1;
    var h := HandAt(r, k);
    HandAtRun(r, k, m - h);
    assert HandAt(r, k + m - h + 1) == 1;
    HandAtRun(r, k + m - h + 1, h - 1);
  }

  /** Within its first totalPages - 1 steps the hand takes every value
      1 .. totalPages - 1. */
  lemma {:induction false} HandAtCovers(r: Replacer, hand: int) returns (j: nat)
    requires Valid(r) && 1 <= hand < r.totalPages
    ensures j < r.totalPages - 1 && HandAt(r, j) == hand
  {
    var m := r.totalPages - 1;
    var c := r.clockHand;
    if hand >= c {
      j := hand - c;
      HandAtRun(r, 0, j);
    } else {
      HandAtRun(r, 0, m - c);
      assert HandAt(r, m - c + 1) == 1;
      HandAtRun(r, m - c + 1, hand - 1);
      j := m - c + hand;
    }
  }

  /** On a replacer of at most 11 pages the 20 positions of a scan visit
      every scannable node twice, so the scan finds an Evictable status
      whenever one of those nodes is a candidate: Victim then succeeds. */
  lemma {:induction false} SmallPoolScanFindsCandidate(r: Replacer, p: int)
    requires Valid(r) && r.totalPages <= 11
    requires 0 <= p < r.totalPages - 1 && IsCandidate(r.nodes[p])
    ensures exists k: nat :: k < MaxRounds && StatusSeen(r, k) == Evictable
  {
    var j := HandAtCovers(r, p + 1);
    var m := r.totalPages - 1;
    if r.nodes[p] == Evictable {
      assert StatusSeen(r, j) == Evictable;
    } else {
      HandAtCycle(r, j);
      assert ScannedBefore(r, j + m, p);
      assert StatusSeen(r, j + m) == Evictable;
    }
  }

  // ---------------------------------------------------------------------
  // Frame ids 0 and 1 share a node.
  // ---------------------------------------------------------------------

  /** The buffer pool of two frames as the code drives its replacer: frame 1
      is pinned (Pin(1)) and frame 0 is then unpinned (Unpin(0)).  The scan
      hands out frame 1, the frame that is still pinned; frame 0 can never
      be handed out at all, since the hand never takes the value 0. */
  method PinnedFrameEvicted() returns (victim: Option<int>)
    ensures victim == Some(1)
  {
    var r0 := Construct(Fresh, 2);
    ConstructFresh(2);
    var r1 := Unpin(Pin(r0, 1), 0);
    assert r1 == Replacer(2, 1, [SecondChance, NotCandidate]);
    assert HandAt(r1, 0) == 1;
    assert ScannedBefore(r1, 1, 0);
    assert StatusSeen(r1, 1) == Evictable;
    var r2;
    victim, r2 := Victim(r1);
  }

  /** A replacer for a pool of poolSize frames with ids shifted by one:
      one node per frame, and hand values 1 .. poolSize that reach them. */
  function ConstructForPool(poolSize: nat): (r: Replacer)
    ensures |r.nodes| == poolSize + 1 && r.totalPages == poolSize + 1
    ensures poolSize >= 1 ==> Valid(r)
    ensures Candidates(r.nodes) == {}
  {
    var r := Construct(Fresh, poolSize + 1);
    assert forall p :: 0 <= p < |r.nodes| ==> r.nodes[p] == NotCandidate;
    if poolSize >= 1 then ConstructFresh(poolSize + 1); r else r
  }

  /** Pin of frame f, passed on as replacer id f + 1, reaches node f alone. */
  function PinFrame(r: Replacer, f: nat): (r': Replacer)
    requires f < |r.nodes|
    ensures r'.totalPages == r.totalPages && r'.clockHand == r.clockHand && |r'.nodes| == |r.nodes|
    ensures r'.nodes[f] == NotCandidate
    ensures forall p :: 0 <= p < |r.nodes| && p != f ==> r'.nodes[p] == r.nodes[p]
    ensures Valid(r) ==> Valid(r')
  {
    Pin(r, f + 1)
  }

  /** Unpin of frame f, passed on as replacer id f + 1, reaches node f alone. */
  function UnpinFrame(r: Replacer, f: nat): (r': Replacer)
    requires f < |r.nodes|
    ensures r'.totalPages == r.totalPages && r'.clockHand == r.clockHand && |r'.nodes| == |r.nodes|
    ensures IsStatus(r.nodes[f]) ==> IsCandidate(r'.nodes[f])
    ensures forall p :: 0 <= p < |r.nodes| && p != f ==> r'.nodes[p] == r.nodes[p]
    ensures Valid(r) ==> Valid(r')
  {
    Unpin(r, f + 1)
  }

  /** Victim with ids shifted back by one: the frame handed out is one whose
      node was a candidate, so a frame pinned since its last unpin is never
      handed out, and every frame of the pool can be. */
  method VictimFrame(r: Replacer) returns (victim: Option<int>, r': Replacer)
    requires Valid(r)
    ensures Valid(r') && r'.totalPages == r.totalPages && |r'.nodes| == |r.nodes|
    ensures victim.Some? ==> 0 <= victim.value < r.totalPages - 1
    ensures victim.Some? ==> IsCandidate(r.nodes[victim.value]) && r'.nodes[victim.value] == NotCandidate
    ensures forall f :: 0 <= f < |r.nodes| && r.nodes[f] == NotCandidate ==> victim != Some(f)
    ensures victim.Some? <==> exists k: nat :: k < MaxRounds && StatusSeen(r, k) == Evictable
  {
    var v;
    v, r' := Victim(r);
    if v.Some? {
      victim := Some(v.value - 1);
    } else {
      victim := None;
    }
  }

  /** With shifted ids, unpinning another frame never releases a pinned one. */
  lemma OtherUnpinKeepsPin(r: Replacer, f: nat, g: nat)
    requires f < |r.nodes| && g < |r.nodes| && f != g
    ensures UnpinFrame(PinFrame(r, f), g).nodes[f] == NotCandidate
  {
  }

  /** As written, unpinning frame 0 releases a pinned frame 1. */
  lemma UnpinZeroReleasesOne(r: Replacer)
    requires |r.nodes| > 0
    ensures Unpin(Pin(r, 1), 0).nodes[NodeIndex(1)] == SecondChance
  {
  }

  // ---------------------------------------------------------------------
  // The unused list walker of Victim.
  // ---------------------------------------------------------------------

  /** What Victim as written ends in: a null dereference, or an answer. */
  datatype Outcome = Crash | Done(victim: Option<int>, after: Replacer)

  /** Victim exactly as written, with the pointer `frame` it carries along:
      it starts at the head and follows one link each time the scan moves
      on, whether or not the link exists.  Its position is kept as a node
      index, |nodes| standing for NULL.  On a list of n nodes the scan
      dereferences NULL when it moves on from its (n+1)-th position without
      having evicted, which it does only when that is not the last of its
      MaxRounds positions. */
  method VictimAsWritten(r: Replacer) returns (out: Outcome)
    requires Valid(r)
    ensures out.Crash? <==>
      |r.nodes| + 1 < MaxRounds && forall j: nat :: j <= |r.nodes| ==> StatusSeen(r, j) != Evictable
    ensures out.Done? ==>
      && (out.victim.Some? <==> exists k: nat :: k < MaxRounds && StatusSeen(r, k) == Evictable)
      && (out.victim.Some? ==> exists k: nat ::
            && FirstEvictable(r, k)
            && out.victim.value == HandAt(r, k)
            && out.after == Replacer(r.totalPages, NextHand(r.totalPages, HandAt(r, k)),
                                     Aged(r, k)[NodeIndex(HandAt(r, k)) := NotCandidate]))
      && (out.victim.None? ==>
            out.after == Replacer(r.totalPages, HandAt(r, MaxRounds - 1), Aged(r, MaxRounds)))
  {
    var walker := 0;
    var round: nat := 0;
    var hand := r.clockHand;
    var nodes := r.nodes;
    AgedNone(r);
    while true
      invariant round < MaxRounds && round <= |r.nodes|
      invariant walker == round
      invariant hand == HandAt(r, round)
      invariant nodes == Aged(r, round)
      invariant forall j: nat :: j < round ==> StatusSeen(r, j) != Evictable
      decreases MaxRounds - round
    {
      var p := GetFrameIndex(nodes, hand);
      AgeStep(r, round);
      if nodes[p] == Evictable {
        assert FirstEvictable(r, round);
        nodes := nodes[p := NotCandidate];
        out := Done(Some(hand), Replacer(r.totalPages, NextHand(r.totalPages, hand), nodes));
        return;
      } else if nodes[p] == SecondChance {
        nodes := nodes[p := Evictable];
      }
      round := round + 1;
      if round == MaxRounds {
        out := Done(None, Replacer(r.totalPages, hand, nodes));
        return;
      }
      hand := NextHand(r.totalPages, hand);
      if walker >= |r.nodes| {
        out := Crash;
        return;
      }
      walker := walker + 1;
    }
  }

  /** A two-page replacer with no candidates: as written, Victim follows the
      link out of the tail on its third move and dereferences NULL instead
      of reporting that there is no victim. */
  method EmptyScanCrashes() returns (out: Outcome)
    ensures out == Crash
  {
    var r := Construct(Fresh, 2);
    ConstructFresh(2);
    assert r.nodes == [NotCandidate, NotCandidate];
    forall j: nat | j <= 2
      ensures StatusSeen(r, j) != Evictable
    {
      assert Aged(r, j)[NodeIndex(HandAt(r, j))] == NotCandidate;
    }
    out := VictimAsWritten(r);
  }
}
