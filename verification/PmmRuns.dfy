/** Runs of pmm_alloc and pmm_free on live frames, from an initialised bitmap on. */
module PmmRuns {
  import opened Bits
  import opened FrameBitmap
  import opened MemoryMap
  import opened Pmm

  /** The bitmap and the frames handed out and not yet given back. */
  datatype Frames = Frames(bits: Bitmap, live: set<nat>)

  /** What a client does: ask for n frames, or give back what its i-th ask was answered with. */
  datatype Ask = Take(n: nat) | GiveBack(i: nat)

  /** An allocation of at least one frame. Address 0 is no frame to the client. */
  ghost predicate Takes(limit: nat, s: Frames, reply: nat, s': Frames) {
    && limit <= 8 * |s.bits| && (reply, s'.bits) == Taken(s.bits, limit)
    && s'.live == if reply == 0 then s.live else s.live + {reply / 0x1000}
  }

  /** The return of one live frame. */
  ghost predicate Gives(s: Frames, frame: nat, s': Frames) {
    && frame in s.live && frame < 8 * |s.bits|
    && s'.bits == Given(s.bits, frame, 1) && s'.live == s.live - {frame}
  }

  predicate LiveAnswer(answers: seq<nat>, i: nat, live: set<nat>) {
    i < |answers| && answers[i] / 0x1000 in live
  }

  /** One ask, after those answered so far. To ask for no frames, or to give back what is not live, changes nothing. */
  ghost predicate Step(limit: nat, s: Frames, answers: seq<nat>, ask: Ask, reply: nat, s': Frames) {
    match ask
    case Take(n) => if n == 0 then reply == 0 && s' == s else Takes(limit, s, reply, s')
    case GiveBack(i) =>
      reply == 0 && if LiveAnswer(answers, i, s.live) then Gives(s, answers[i] / 0x1000, s') else s' == s
  }

  /** The free frames that a client can get. */
  ghost function Spare(bm: Bitmap): set<nat> {
    FreeFrames(bm) - {0}
  }

  /** Frames are conserved: what is live and what is spare make up the pool and do not meet. */
  ghost predicate Conserved(s: Frames, pool: set<nat>) {
    s.live !! Spare(s.bits) && s.live + Spare(s.bits) == pool && 0 !in s.live
  }

  lemma TakeConserves(s: Frames, bit: nat, s': Frames, pool: set<nat>)
    requires Conserved(s, pool) && bit < 8 * |s.bits| && !TestBit(s.bits, bit)
    requires s'.bits == SetBit(s.bits, bit) && s'.live == if bit == 0 then s.live else s.live + {bit}
    ensures Conserved(s', pool) && |s'.bits| == |s.bits|
  {
    hide SetBit, TestBit;
    SetTakes(s.bits, bit);
    assert bit in FreeFrames(s.bits);
  }

  lemma GivenOne(bm: Bitmap, frame: nat)
    requires frame < 8 * |bm|
    ensures Given(bm, frame, 1) == UnsetBit(bm, frame)
  {
    assert Given(bm, frame, 0) == bm;
  }

  lemma GiveConserves(s: Frames, frame: nat, s': Frames, pool: set<nat>)
    requires Conserved(s, pool) && Gives(s, frame, s')
    ensures Conserved(s', pool) && |s'.bits| == |s.bits|
  {
    hide UnsetBit, TestBit, Given;
    GivenOne(s.bits, frame);
    UnsetReleases(s.bits, frame);
    assert frame !in Spare(s.bits);
  }

  lemma ConservedCounts(s: Frames, pool: set<nat>)
    requires Conserved(s, pool)
    ensures |s.live| + |Spare(s.bits)| == |pool|
  {
    hide Spare;
    assert |s.live + Spare(s.bits)| == |s.live| + |Spare(s.bits)|;
  }

  lemma StepConserves(limit: nat, s: Frames, answers: seq<nat>, ask: Ask, reply: nat, s': Frames, pool: set<nat>)
    requires Step(limit, s, answers, ask, reply, s') && Conserved(s, pool)
    ensures Conserved(s', pool)
    ensures |s'.bits| == |s.bits| && |s'.live| + |Spare(s'.bits)| == |s.live| + |Spare(s.bits)|
  {
    hide Spare, SetBit, UnsetBit;
    match ask {
      case Take(n) =>
        if n > 0 && exists bit: nat :: LowestFree(s.bits, limit, bit) {
          var bit: nat :| LowestFree(s.bits, limit, bit);
          TakenIs(s.bits, limit, bit);
          TakeConserves(s, bit, s', pool);
        }
      case GiveBack(i) =>
        if LiveAnswer(answers, i, s.live) {
          GiveConserves(s, answers[i] / 0x1000, s', pool);
        }
    }
    ConservedCounts(s, pool);
    ConservedCounts(s', pool);
  }

  /** What an allocation answers: the lowest free frame, never one that is live; 0 exactly when none is free or the
      lowest is frame 0. */
  lemma TakeAnswers(limit: nat, s: Frames, reply: nat, s': Frames, pool: set<nat>)
    requires Takes(limit, s, reply, s') && Conserved(s, pool)
    ensures reply == 0 <==> 0 in FreeFrames(s.bits) || forall bit :: bit in FreeFrames(s.bits) ==> bit >= limit
    ensures reply != 0 ==> var frame := reply / 0x1000;
              && reply == 0x1000 * frame && frame in pool && frame !in s.live && frame in s'.live
              && frame in FreeFrames(s.bits)
              && forall bit :: bit in FreeFrames(s.bits) ==> frame <= bit
  {
    TakenExactly(s.bits, limit);
  }

  /** Taking a frame and giving it straight back restores the bitmap bit for bit. */
  lemma TakeThenGive(limit: nat, s: Frames, reply: nat, s': Frames, s'': Frames, pool: set<nat>)
    requires Takes(limit, s, reply, s') && reply != 0 && Conserved(s, pool)
    requires Gives(s', reply / 0x1000, s'')
    ensures s'' == s
  {
    hide TestBit, SetBit, UnsetBit, Given;
    var bit: nat :| LowestFree(s.bits, limit, bit);
    TakenIs(s.bits, limit, bit);
    assert bit in Spare(s.bits);
    UnsetAfterSet(s.bits, bit);
    GivenOne(s'.bits, bit);
  }

  /** An answer of 0 means failure, and it changes the bitmap exactly when frame 0 was free, which is then lost. */
  lemma FrameZeroLost(bm: Bitmap, limit: nat)
    requires 0 < limit <= 8 * |bm|
    ensures Taken(bm, limit).0 == 0 && Taken(bm, limit).1 != bm <==> !TestBit(bm, 0)
  {
    if !TestBit(bm, 0) {
      TakenIs(bm, limit, 0);
      SetChangesOne(bm, 0, 0);
    } else if exists bit: nat :: LowestFree(bm, limit, bit) {
      var bit: nat :| LowestFree(bm, limit, bit);
      TakenIs(bm, limit, bit);
    }
  }

  // ---- runs ----

  ghost predicate Run(limit: nat, states: seq<Frames>, asks: seq<Ask>, answers: seq<nat>) {
    && |states| == |asks| + 1 && |answers| == |asks|
    && forall i :: 0 <= i < |asks| ==> Step(limit, states[i], answers[..i], asks[i], answers[i], states[i + 1])
  }

  lemma {:induction false} RunKeepsPool(limit: nat, states: seq<Frames>, asks: seq<Ask>, answers: seq<nat>,
                                        n: nat, pool: set<nat>)
    requires Run(limit, states, asks, answers) && n <= |asks| && Conserved(states[0], pool)
    ensures Conserved(states[n], pool) && |states[n].bits| == |states[0].bits|
  {
    if n > 0 {
      RunKeepsPool(limit, states, asks, answers, n - 1, pool);
      StepConserves(limit, states[n - 1], answers[..n - 1], asks[n - 1], answers[n - 1], states[n], pool);
    }
  }

  /** Over every run from a bitmap with nothing handed out, frames are conserved at every moment. */
  lemma RunConserves(limit: nat, states: seq<Frames>, asks: seq<Ask>, answers: seq<nat>, n: nat)
    requires Run(limit, states, asks, answers) && n <= |asks| && states[0].live == {}
    ensures Conserved(states[n], Spare(states[0].bits))
    ensures |states[n].live| + |Spare(states[n].bits)| == |Spare(states[0].bits)|
  {
    RunKeepsPool(limit, states, asks, answers, n, Spare(states[0].bits));
    ConservedCounts(states[n], Spare(states[0].bits));
  }

  lemma AnsweredTake(limit: nat, s: Frames, answers: seq<nat>, ask: Ask, reply: nat, s': Frames)
    requires Step(limit, s, answers, ask, reply, s') && reply != 0
    ensures Takes(limit, s, reply, s')
  {
  }

  /** So two frames that are out at the same time differ: an answer is never a frame still live, and every answer is
      one of the frames released at initialisation. */
  lemma RunSafe(limit: nat, states: seq<Frames>, asks: seq<Ask>, answers: seq<nat>, n: nat)
    requires Run(limit, states, asks, answers) && n < |asks| && answers[n] != 0 && states[0].live == {}
    ensures var frame := answers[n] / 0x1000;
            && answers[n] == 0x1000 * frame && frame in Spare(states[0].bits)
            && frame !in states[n].live && frame in states[n + 1].live
  {
    RunConserves(limit, states, asks, answers, n);
    AnsweredTake(limit, states[n], answers[..n], asks[n], answers[n], states[n + 1]);
    TakeAnswers(limit, states[n], answers[n], states[n + 1], Spare(states[0].bits));
  }

  /** Ask j gives back what ask m was answered with. */
  predicate Returns(asks: seq<Ask>, answers: seq<nat>, j: nat, m: nat)
    requires |asks| == |answers| && j < |asks| && m < |asks|
  {
    asks[j].GiveBack? && asks[j].i < j && answers[asks[j].i] == answers[m]
  }

  /** A frame stays live until it is given back. */
  lemma {:induction false} LiveUntilReturned(limit: nat, states: seq<Frames>, asks: seq<Ask>, answers: seq<nat>,
                                             m: nat, n: nat)
    requires Run(limit, states, asks, answers) && m < n <= |asks| && answers[m] != 0 && states[0].live == {}
    requires forall j :: m < j < n ==> !Returns(asks, answers, j, m)
    ensures answers[m] / 0x1000 in states[n].live
  {
    RunSafe(limit, states, asks, answers, m);
    if n - 1 > m {
      var j := n - 1;
      LiveUntilReturned(limit, states, asks, answers, m, j);
      RunConserves(limit, states, asks, answers, j);
      assert Step(limit, states[j], answers[..j], asks[j], answers[j], states[j + 1]);
      assert !Returns(asks, answers, j, m);
      if asks[j].GiveBack? && LiveAnswer(answers[..j], asks[j].i, states[j].live) {
        var i := asks[j].i;
        assert answers[..j][i] == answers[i];
        assert answers[i] != 0;
        RunSafe(limit, states, asks, answers, i);
      }
    }
  }

  /** In a client's own terms: over every run, no two asks are answered alike unless what the first one got has been given
      back in between. */
  lemma NeverTwice(limit: nat, states: seq<Frames>, asks: seq<Ask>, answers: seq<nat>, m: nat, n: nat)
    requires Run(limit, states, asks, answers) && m < n < |asks| && states[0].live == {}
    requires answers[m] == answers[n] != 0
    ensures exists j :: m < j < n && Returns(asks, answers, j, m)
  {
    if forall j :: m < j < n ==> !Returns(asks, answers, j, m) {
      LiveUntilReturned(limit, states, asks, answers, m, n);
      RunSafe(limit, states, asks, answers, n);
      assert false;
    }
  }

  /** An ask for frames is answered with 0 only when every frame the search covers is out, or frame 0 is free. If it covers
      the bitmap, that is when none is free at all. */
  lemma RunAnswers(limit: nat, states: seq<Frames>, asks: seq<Ask>, answers: seq<nat>, n: nat)
    requires Run(limit, states, asks, answers) && n < |asks| && asks[n].Take? && asks[n].n > 0 && states[0].live == {}
    ensures AnswersLowest(FreeFrames(states[n].bits), limit, answers[n])
    ensures limit == 8 * |states[0].bits| ==>
              (answers[n] == 0 <==> 0 in FreeFrames(states[n].bits) || FreeFrames(states[n].bits) == {})
  {
    assert Step(limit, states[n], answers[..n], asks[n], answers[n], states[n + 1]);
    RunKeepsPool(limit, states, asks, answers, n, Spare(states[0].bits));
    TakenExactly(states[n].bits, limit);
    if limit == 8 * |states[0].bits| && FreeFrames(states[n].bits) != {} {
      var frame :| frame in FreeFrames(states[n].bits);
      assert frame < limit;
    }
  }

  /** The page at an address lies within a usable entry. */
  predicate PageIn(e: Entry, page: nat) {
    e.Usable() && e.base <= page && page + 0x1000 <= e.End()
  }

  /** It lies within one of the map, and shares no byte with the bitmap's storage. */
  ghost predicate SafePage(es: seq<Entry>, base: nat, size: nat, page: nat) {
    && (page + 0x1000 <= base || base + size <= page)
    && exists i :: 0 <= i < |es| && PageIn(es[i], page)
  }

  lemma WholePage(e: Entry, frame: nat)
    requires e.Usable() && e.End() % 0x1000 == 0 && InFrames(e, frame)
    ensures PageIn(e, 0x1000 * frame)
  {
  }

  lemma CarvedWithin(es: seq<Entry>, carved: nat, size: nat, i: nat, page: nat)
    requires carved < |es| && Released(es[carved], size) && i < |es| && PageIn(Carve(es, carved, size)[i], page)
    ensures PageIn(es[i], page)
  {
  }

  /** A clear bit is that of a page of usable memory. */
  lemma FrameUsable(es: seq<Entry>, carved: nat, size: nat, bm: Bitmap, frame: nat)
    requires Regular(es) && CarvedAt(es, carved, size) && size % 0x1000 == 0
    requires |bm| == size && Reflects(bm, Carve(es, carved, size), |es|, size)
    requires frame < 8 * |bm| && !TestBit(bm, frame)
    ensures exists i :: 0 <= i < |es| && PageIn(es[i], 0x1000 * frame)
  {
    hide Regular, TestBit, InFrames, PageIn, Carve;
    var cs := Carve(es, carved, size);
    assert ReleasedFrame(cs, |es|, size, frame);
    var i :| 0 <= i < |es| && Released(cs[i], size) && InFrames(cs[i], frame);
    UsableBefore(es, carved, size, i);
    EntriesApart(es, carved, size, i);
    WholePage(cs[i], frame);
    CarvedWithin(es, carved, size, i, 0x1000 * frame);
  }

  lemma UsableBefore(es: seq<Entry>, carved: nat, size: nat, i: nat)
    requires carved < |es| && Released(es[carved], size) && i < |es| && Carve(es, carved, size)[i].Usable()
    ensures es[i].Usable()
  {
  }

  /** From a bitmap as init_bitmap leaves it, no run is ever handed anything but pages of usable memory, and none that
      overlaps the bitmap's own storage. */
  lemma RunSparesBitmap(es: seq<Entry>, carved: nat, limit: nat, states: seq<Frames>, asks: seq<Ask>, answers: seq<nat>,
                        n: nat)
    requires Run(limit, states, asks, answers) && n < |asks| && answers[n] != 0 && states[0].live == {}
    requires var size := |states[0].bits|;
             Regular(es) && CarvedAt(es, carved, size) && size % 0x1000 == 0
             && Reflects(states[0].bits, Carve(es, carved, size), |es|, size)
    ensures SafePage(es, es[carved].base, |states[0].bits|, answers[n])
  {
    RunSafe(limit, states, asks, answers, n);
    var frame := answers[n] / 0x1000;
    assert frame in FreeFrames(states[0].bits);
    BitmapKeepsItself(es, carved, |states[0].bits|, states[0].bits, frame);
    FrameUsable(es, carved, |states[0].bits|, states[0].bits, frame);
  }

  // ---- driving the allocator ----

  lemma RunMore(limit: nat, states: seq<Frames>, asks: seq<Ask>, answers: seq<nat>, ask: Ask, reply: nat, s: Frames)
    requires Run(limit, states, asks, answers) && Step(limit, states[|asks|], answers, ask, reply, s)
    ensures Run(limit, states + [s], asks + [ask], answers + [reply])
  {
    hide Step;
    var states', asks', answers' := states + [s], asks + [ask], answers + [reply];
    assert answers'[..|asks|] == answers;
    forall i | 0 <= i < |asks'| ensures Step(limit, states'[i], answers'[..i], asks'[i], answers'[i], states'[i + 1]) {
      if i < |asks| {
        assert Step(limit, states[i], answers[..i], asks[i], answers[i], states[i + 1]);
        assert answers'[..i] == answers[..i];
      }
    }
  }

  /** One ask: a call, or none if there is nothing to give back. */
  method AskOne(a: FrameAllocator, ask: Ask, answers: seq<nat>, live: set<nat>) returns (reply: nat, live': set<nat>)
    requires a.Ready() && forall frame :: frame in live ==> frame < 8 * a.bitmap.Length
    modifies a.bitmap
    ensures a.Ready() && a.entries[..] == old(a.entries[..])
    ensures Step(a.Limit(), Frames(old(a.bitmap[..]), live), answers, ask, reply, Frames(a.bitmap[..], live'))
    ensures forall frame :: frame in live' ==> frame < 8 * a.bitmap.Length
  {
    reply, live' := 0, live;
    match ask
    case Take(n) =>
      TakenBelow(a.bitmap[..], a.Limit());
      reply := a.Alloc(n);
      live' := if reply == 0 then live else live + {reply / 0x1000};
    case GiveBack(i) =>
      if LiveAnswer(answers, i, live) {
        a.Free(answers[i], 1);
        live' := live - {answers[i] / 0x1000};
      }
  }

  lemma TakenBelow(bm: Bitmap, limit: nat)
    requires limit <= 8 * |bm|
    ensures Taken(bm, limit).0 / 0x1000 < 8 * |bm| || Taken(bm, limit).0 == 0
  {
  }

  /** Any sequence of asks is a run of the frames, so that all that is said of runs holds of the allocator. */
  method RunAll(a: FrameAllocator, asks: seq<Ask>) returns (answers: seq<nat>, ghost states: seq<Frames>)
    requires a.Ready()
    modifies a.bitmap
    ensures a.Ready() && a.entries[..] == old(a.entries[..]) && Run(a.Limit(), states, asks, answers)
    ensures states[0] == Frames(old(a.bitmap[..]), {}) && states[|asks|].bits == a.bitmap[..]
  {
    hide Step, Run;
    var live: set<nat> := {};
    answers, states := [], [Frames(a.bitmap[..], {})];
    RunNone(a.Limit(), states);
    for i := 0 to |asks|
      invariant a.Ready() && a.entries[..] == old(a.entries[..])
      invariant |states| == i + 1 && |answers| == i && Run(a.Limit(), states, asks[..i], answers)
      invariant states[0] == Frames(old(a.bitmap[..]), {}) && states[i] == Frames(a.bitmap[..], live)
      invariant forall frame :: frame in live ==> frame < 8 * a.bitmap.Length
    {
      var reply;
      reply, live := AskOne(a, asks[i], answers, live);
      RunMore(a.Limit(), states, asks[..i], answers, asks[i], reply, Frames(a.bitmap[..], live));
      assert asks[..i + 1] == asks[..i] + [asks[i]];
      states, answers := states + [Frames(a.bitmap[..], live)], answers + [reply];
    }
    assert asks[..|asks|] == asks;
  }

  lemma RunNone(limit: nat, states: seq<Frames>)
    requires |states| == 1
    ensures Run(limit, states, [], [])
  {
  }

  /** From pmm_init on: every sequence of asks is a run from a bitmap that reflects the memory map as carved, each answer
      that is not 0 is a page of usable memory apart from the bitmap, and none is given again before it is given back. */
  method BootAndRun(a: FrameAllocator, asks: seq<Ask>)
      returns (answers: seq<nat>, ghost states: seq<Frames>, ghost carved: nat)
    requires SomeUsable(a.entries[..]) && Regular(a.entries[..]) && Fits(a.entries[..]) && a.bitmap == null
    modifies a`bitmap, a`bitmapBase, a.entries
    ensures var es, size := old(a.entries[..]), SizeFor(HighestAddress(old(a.entries[..])));
            && (a.bitmap == null <==> forall i :: 0 <= i < |es| ==> !(es[i].kind == 0 && es[i].length >= size))
            && (a.bitmap != null ==> a.bitmap.Length == size)
    ensures a.bitmap != null ==>
              && a.Ready() && Run(a.Limit(), states, asks, answers) && states[|asks|].bits == a.bitmap[..]
              && states[0].live == {} && carved < a.entries.Length && a.bitmapBase == old(a.entries[..])[carved].base
              && BootsFrom(old(a.entries[..]), carved, a.bitmap.Length, states[0].bits)
    ensures a.bitmap != null ==> forall n :: 0 <= n < |asks| && asks[n].Take? && asks[n].n > 0 ==>
              AnswersLowest(FreeFrames(states[n].bits), 8 * SizeFor(HighestAddress(a.entries[..])), answers[n])
    ensures a.bitmap != null && !EmptiesLast(old(a.entries[..]), carved, a.bitmap.Length) ==>
              forall n :: 0 <= n < |asks| && asks[n].Take? && asks[n].n > 0 && answers[n] == 0 ==>
                0 in FreeFrames(states[n].bits) || FreeFrames(states[n].bits) == {}
    ensures a.bitmap != null ==> forall n :: 0 <= n < |asks| && answers[n] != 0 ==>
              SafePage(old(a.entries[..]), a.bitmapBase, a.bitmap.Length, answers[n])
    ensures a.bitmap != null ==> forall m, n :: 0 <= m < n < |asks| && answers[m] == answers[n] != 0 ==>
              exists j :: m < j < n && Returns(asks, answers, j, m)
  {
    ghost var es := a.entries[..];
    answers, states := [], [];
    carved := a.PmmInit();
    if a.bitmap != null {
      answers, states := RunAll(a, asks);
      forall n | 0 <= n < |asks| && answers[n] != 0 ensures SafePage(es, a.bitmapBase, a.bitmap.Length, answers[n]) {
        RunSparesBitmap(es, carved, a.Limit(), states, asks, answers, n);
      }
      forall n | 0 <= n < |asks| && asks[n].Take? && asks[n].n > 0
        ensures AnswersLowest(FreeFrames(states[n].bits), a.Limit(), answers[n])
        ensures a.Limit() == 8 * a.bitmap.Length && answers[n] == 0 ==>
                  0 in FreeFrames(states[n].bits) || FreeFrames(states[n].bits) == {}
      {
        RunAnswers(a.Limit(), states, asks, answers, n);
      }
      forall m, n | 0 <= m < n < |asks| && answers[m] == answers[n] != 0
        ensures exists j :: m < j < n && Returns(asks, answers, j, m)
      {
        NeverTwice(a.Limit(), states, asks, answers, m, n);
      }
    }
  }
}
