/**
 * A capture that starts while the stream's target bit is still set from an earlier transfer: where its chunks go,
 * and when the walk is right again.
 */
module StaleTarget {
  import opened Arithmetic
  import opened DmaHandle
  import opened FrameWalk
  import opened FrameMemory

  /** What starting a split capture establishes, whatever the target bit is. */
  predicate Started(s: System, p: nat, size: nat, n: nat)
    requires n >= 2
  {
    && Streaming(s.dma)
    && s.dma.regs.m0ar == ChunkAddress(p, size, 0) && s.dma.regs.m1ar == ChunkAddress(p, size, 1)
    && s.capture == Capture(n - 2, n - 2, size, p)
  }

  lemma {:induction false} ClearStart(s: System, p: nat, size: nat, n: nat)
    requires n >= 2 && Started(s, p, size, n) && !s.dma.regs.ct
    ensures At(s, p, size, n, 0)
  {
    QuotientIs(0, n, 0, 0);
  }

  // ---------------------------------------------------------------- completions without faults

  /** A completion while the transfer runs without faults: the stream turns, the handler re-aims. */
  function Next(s: System): System {
    var r := XferCplt(s.capture, Flipped(s.dma).regs);
    System(r.capture, s.dma.(regs := r.regs))
  }

  function NextMany(s: System, k: nat): System {
    if k == 0 then s else Next(NextMany(s, k - 1))
  }

  lemma {:induction false} NextIsAfter(s: System)
    requires Streaming(s.dma)
    ensures After(s) == Next(s) && Streaming(Next(s).dma)
  {
    CompletionIsHandled(s);
  }

  lemma {:induction false} OneMoreAfter(s: System, k: nat, t: System, u: System)
    requires k > 0 && AfterMany(s, k - 1) == t && Streaming(t.dma) && u == Next(t)
    ensures AfterMany(s, k) == u && Streaming(u.dma)
  {
    NextIsAfter(t);
  }

  lemma {:induction false} NoneYet(s: System)
    ensures AfterMany(s, 0) == NextMany(s, 0) == s
  {
  }

  /** That is all the interrupts of such a transfer come to. */
  lemma {:induction false} NextManyIsAfterMany(s: System, k: nat)
    requires Streaming(s.dma)
    ensures AfterMany(s, k) == NextMany(s, k) && Streaming(NextMany(s, k).dma)
  {
    if k == 0 {
      NoneYet(s);
    } else {
      NextManyIsAfterMany(s, k - 1);
      OneMoreAfter(s, k, NextMany(s, k - 1), NextMany(s, k));
    }
  }

  function NextAim(s: System, k: nat): nat {
    Target(NextMany(s, k).dma.regs)
  }

  lemma {:induction false} AimIsNext(s: System, k: nat)
    requires Streaming(s.dma)
    ensures Aims(s)(k) == NextAim(s, k)
  {
    NextManyIsAfterMany(s, k);
  }

  // ---------------------------------------------------------------- the first round

  /** The chunk the first buffer is aimed at, and the chunks left to re-aim for, after `k` completions. */
  function FirstAim(k: nat): nat {
    if k < 3 then 0 else if k % 2 == 1 then k - 3 else k - 2
  }

  function SecondAim(k: nat): nat {
    if k % 2 == 0 then k + 1 else k + 2
  }

  function ChunksLeft(n: nat, k: nat): int {
    if k < 2 then n - 2 - k else n - 1 - k
  }

  predicate Off(s: System, p: nat, size: nat, n: nat, k: nat)
    requires n >= 4 && k < n
  {
    && Streaming(s.dma) && s.dma.regs.ct == (k % 2 == 0)
    && s.dma.regs.m0ar == ChunkAddress(p, size, FirstAim(k))
    && s.dma.regs.m1ar == ChunkAddress(p, size, SecondAim(k))
    && s.capture == Capture(ChunksLeft(n, k), n - 2, size, p)
  }

  /** The second buffer was filled: it moves two chunks on. */
  lemma {:induction false} SecondMoves(c: Capture, r: Registers, p: nat, size: nat, n: nat, k: nat)
    requires n >= 4 && n % 2 == 0 && k + 1 < n && k % 2 == 0 && !r.ct
    requires r.m1ar == ChunkAddress(p, size, k + 1) && c == Capture(ChunksLeft(n, k), n - 2, size, p)
    ensures XferCplt(c, r).capture == c.(xferCount := ChunksLeft(n, k + 1))
    ensures XferCplt(c, r).regs == r.(m1ar := ChunkAddress(p, size, k + 3))
  {
    AdvanceTwo(p, size, k + 1);
  }

  /** The first buffer was filled: it stays once, and then moves two chunks on each time. */
  lemma {:induction false} FirstMoves(c: Capture, r: Registers, p: nat, size: nat, n: nat, k: nat)
    requires n >= 4 && n % 2 == 0 && k + 1 < n && k % 2 == 1 && r.ct
    requires r.m0ar == ChunkAddress(p, size, FirstAim(k)) && c == Capture(ChunksLeft(n, k), n - 2, size, p)
    ensures XferCplt(c, r).capture == c.(xferCount := ChunksLeft(n, k + 1))
    ensures XferCplt(c, r).regs == r.(m0ar := ChunkAddress(p, size, FirstAim(k + 1)))
  {
    AdvanceTwo(p, size, FirstAim(k));
    if k > 1 {
      assert ChunksLeft(n, k) % 2 == 0;
    }
  }

  /** The handler's reaction while the buffers are exchanged. */
  lemma {:induction false} OffReaction(c: Capture, r: Registers, p: nat, size: nat, n: nat, k: nat)
    requires n >= 4 && n % 2 == 0 && k + 1 < n && r.ct == (k % 2 == 1)
    requires r.m0ar == ChunkAddress(p, size, FirstAim(k)) && r.m1ar == ChunkAddress(p, size, SecondAim(k))
    requires c == Capture(ChunksLeft(n, k), n - 2, size, p)
    ensures XferCplt(c, r).capture == c.(xferCount := ChunksLeft(n, k + 1))
    ensures XferCplt(c, r).regs
            == r.(m0ar := ChunkAddress(p, size, FirstAim(k + 1)), m1ar := ChunkAddress(p, size, SecondAim(k + 1)))
  {
    if k % 2 == 0 {
      SecondMoves(c, r, p, size, n, k);
    } else {
      FirstMoves(c, r, p, size, n, k);
    }
  }

  lemma {:induction false} OffStep(s: System, p: nat, size: nat, n: nat, k: nat)
    requires n >= 4 && n % 2 == 0 && k + 1 < n && Off(s, p, size, n, k)
    ensures Off(Next(s), p, size, n, k + 1)
  {
    OffReaction(s.capture, Flipped(s.dma).regs, p, size, n, k);
  }

  lemma {:induction false} OffReaches(s: System, p: nat, size: nat, n: nat, k: nat)
    requires n >= 4 && n % 2 == 0 && k < n && Off(s, p, size, n, 0)
    ensures Off(NextMany(s, k), p, size, n, k)
  {
    if k > 0 {
      OffReaches(s, p, size, n, k - 1);
      OffStep(NextMany(s, k - 1), p, size, n, k - 1);
    }
  }

  lemma {:induction false} StaleStart(s: System, p: nat, size: nat, n: nat)
    requires n >= 4 && Started(s, p, size, n) && s.dma.regs.ct
    ensures Off(s, p, size, n, 0)
  {
  }

  /** No chunks are left, and the first buffer is back at the first chunk. */
  predicate Exhausted(s: System, p: nat, size: nat, n: nat)
    requires n >= 2
  {
    && Streaming(s.dma) && s.dma.regs.ct && s.dma.regs.m0ar == p
    && s.capture == Capture(0, n - 2, size, p)
  }

  /** The last chunk of the round makes the second buffer fill one far behind. */
  lemma {:induction false} OffEnds(s: System, p: nat, size: nat, n: nat)
    requires n >= 4 && n % 2 == 0 && p < WORD32 && Off(s, p, size, n, n - 1)
    ensures Exhausted(Next(s), p, size, n) && Next(s).dma.regs.m1ar == ChunkAddress(p, size, n + 1)
  {
  }

  lemma {:induction false} SecondStartsOver(c: Capture, r: Registers, p: nat, size: nat, n: nat)
    requires n >= 2 && p < WORD32 && !r.ct && r.m0ar == p && c == Capture(0, n - 2, size, p)
    ensures XferCplt(c, r).capture == Capture(n - 2, n - 2, size, p)
    ensures XferCplt(c, r).regs == r.(m1ar := ChunkAddress(p, size, 1))
  {
    FirstChunks(p, size);
  }

  lemma {:induction false} BothStarted(s: System, p: nat, size: nat, n: nat)
    requires n >= 2 && p < WORD32 && Streaming(s.dma) && !s.dma.regs.ct && s.dma.regs.m0ar == p
    requires s.dma.regs.m1ar == ChunkAddress(p, size, 1) && s.capture == Capture(n - 2, n - 2, size, p)
    ensures At(s, p, size, n, 0)
  {
    FirstChunks(p, size);
    QuotientIs(0, n, 0, 0);
  }

  /** The next completion starts the second buffer over as well: now the walk is right. */
  lemma {:induction false} WalkHeals(s: System, p: nat, size: nat, n: nat)
    requires n >= 2 && p < WORD32 && Exhausted(s, p, size, n)
    ensures At(Next(s), p, size, n, 0)
  {
    SecondStartsOver(s.capture, Flipped(s.dma).regs, p, size, n);
    BothStarted(Next(s), p, size, n);
  }

  // ---------------------------------------------------------------- all chunks

  /** The chunk filled as number `k` of the first round. */
  function StaleChunk(k: nat): nat {
    if k % 2 == 0 then k + 1 else if k < 3 then 0 else k - 3
  }

  /** With the bit set and four chunks or more, the first round goes astray, chunk by chunk. */
  lemma {:induction false} StaleChunks(s: System, p: nat, size: nat, n: nat, k: nat)
    requires n >= 4 && n % 2 == 0 && p < WORD32 && k <= n && Started(s, p, size, n) && s.dma.regs.ct
    ensures NextAim(s, k) == ChunkAddress(p, size, StaleChunk(k))
  {
    StaleStart(s, p, size, n);
    if k < n {
      OffReaches(s, p, size, n, k);
    } else {
      OffReaches(s, p, size, n, n - 1);
      OffEnds(NextMany(s, n - 1), p, size, n);
    }
  }

  /** How many chunks are misplaced before the walk is right. */
  function Astray(n: nat): nat {
    if n == 2 then 1 else n + 1
  }

  lemma {:induction false} StaleHeals(s: System, p: nat, size: nat, n: nat)
    requires n >= 2 && n % 2 == 0 && p < WORD32 && Started(s, p, size, n) && s.dma.regs.ct
    ensures At(NextMany(s, Astray(n)), p, size, n, 0)
  {
    if n == 2 {
      FirstChunks(p, size);
      WalkHeals(s, p, size, n);
      assert NextMany(s, 0) == s;
    } else {
      ManyHeal(s, p, size, n);
    }
  }

  lemma {:induction false} ManyHeal(s: System, p: nat, size: nat, n: nat)
    requires n >= 4 && n % 2 == 0 && p < WORD32 && Started(s, p, size, n) && s.dma.regs.ct
    ensures At(NextMany(s, n + 1), p, size, n, 0)
  {
    StaleStart(s, p, size, n);
    OffReaches(s, p, size, n, n - 1);
    OffEnds(NextMany(s, n - 1), p, size, n);
    WalkHeals(NextMany(s, n), p, size, n);
  }

  lemma {:induction false} StepNext(s: System, p: nat, size: nat, n: nat, k: nat)
    requires n >= 2 && n % 2 == 0 && p < WORD32 && At(s, p, size, n, k)
    ensures At(Next(s), p, size, n, k + 1)
  {
    StepOfWalk(s, p, size, n, k);
    NextIsAfter(s);
  }

  lemma {:induction false} WalksOn(s: System, p: nat, size: nat, n: nat, m: nat, k: nat)
    requires n >= 2 && n % 2 == 0 && p < WORD32 && At(NextMany(s, m), p, size, n, 0)
    ensures At(NextMany(s, m + k), p, size, n, k)
  {
    if k > 0 {
      WalksOn(s, p, size, n, m, k - 1);
      StepNext(NextMany(s, m + k - 1), p, size, n, k - 1);
    }
  }

  /** From then on the chunks follow each other through the frame for ever, the frames beginning that much later. */
  lemma {:induction false} StaleWalksOn(s: System, p: nat, size: nat, n: nat, k: nat)
    requires n >= 2 && n % 2 == 0 && p < WORD32 && Started(s, p, size, n) && s.dma.regs.ct
    ensures NextAim(s, Astray(n) + k) == ChunkAddress(p, size, k % n)
  {
    StaleHeals(s, p, size, n);
    WalksOn(s, p, size, n, Astray(n), k);
  }

  // ---------------------------------------------------------------- the condition

  lemma {:induction false} FirstIsNotSecond(p: nat, size: nat, n: nat)
    requires n >= 2 && size > 0 && p + 4 * (size * n) <= WORD32
    ensures ChunkAddress(p, size, 0) == p < WORD32 && ChunkAddress(p, size, 1) != p
  {
    MulMonotone(size, 2, n);
    FirstChunks(p, size);
  }

  /** A split capture goes through the frame chunk by chunk if and only if the target bit was clear. */
  lemma {:induction false} CaptureWalksIff(s: System, p: nat, size: nat, n: nat)
    requires n >= 2 && n % 2 == 0 && size > 0 && p + 4 * (size * n) <= WORD32 && Started(s, p, size, n)
    ensures Walks(Aims(s), p, size, n) <==> !s.dma.regs.ct
  {
    FirstIsNotSecond(p, size, n);
    if s.dma.regs.ct {
      QuotientIs(0, n, 0, 0);
      FirstAimIs(s);
    } else {
      ClearStart(s, p, size, n);
      CaptureWalks(s, p, size, n);
    }
  }

  /** A chunk at `a` lies in the frame buffer. */
  predicate Inside(a: nat, p: nat, size: nat, n: nat) {
    p <= a && a + 4 * size <= p + 4 * (size * n)
  }

  /** No chunk is ever written outside the frame buffer. */
  ghost predicate StaysInside(aims: nat -> nat, p: nat, size: nat, n: nat) {
    forall k: nat :: Inside(aims(k), p, size, n)
  }

  lemma {:induction false} ChunkIsInside(p: nat, size: nat, n: nat, j: nat)
    requires size > 0 && j < n && p + 4 * (size * n) <= WORD32
    ensures Inside(ChunkAddress(p, size, j), p, size, n)
  {
    ChunkInFrame(p, size, n, j);
  }

  /** The stray chunk is outside, unless the addresses wrap all the way round. */
  lemma {:induction false} StrayIsInsideIff(p: nat, size: nat, n: nat)
    requires n >= 4 && size > 0 && p + 4 * (size * n) <= WORD32
    ensures Inside(ChunkAddress(p, size, n + 1), p, size, n) <==> 4 * (size * (n + 1)) >= WORD32
    ensures 4 * (size * (n + 1)) < WORD32 <= p + 4 * (size * (n + 1)) ==> ChunkAddress(p, size, n + 1) < p
    ensures p + 4 * (size * (n + 1)) < WORD32 ==> ChunkAddress(p, size, n + 1) == p + 4 * (size * n) + 4 * size
  {
    MulMonotone(size, 4, n);
    assert size * (n + 1) == size * n + size;
    var x := p + 4 * (size * (n + 1));
    assert x < 2 * WORD32;
    if x >= WORD32 {
      assert W32(x) == x - WORD32;
    }
  }

  /**
   * A split capture stays in its frame buffer if and only if the target bit was clear or there are but two chunks
   * (or buffer and one chunk more make up the whole address space).
   */
  lemma {:induction false} StaysInsideIff(s: System, p: nat, size: nat, n: nat)
    requires n >= 2 && n % 2 == 0 && size > 0 && p + 4 * (size * n) <= WORD32 && Started(s, p, size, n)
    ensures StaysInside(Aims(s), p, size, n) <==> !s.dma.regs.ct || n == 2 || 4 * (size * (n + 1)) >= WORD32
  {
    if s.dma.regs.ct && n != 2 && 4 * (size * (n + 1)) < WORD32 {
      StrayChunk(s, p, size, n);
      AimIsNext(s, n);
    } else {
      forall k: nat
        ensures Inside(Aims(s)(k), p, size, n)
      {
        AimIsInside(s, p, size, n, k);
        AimIsNext(s, k);
      }
    }
  }

  lemma {:induction false} StrayChunk(s: System, p: nat, size: nat, n: nat)
    requires n >= 4 && n % 2 == 0 && size > 0 && p + 4 * (size * n) <= WORD32 && Started(s, p, size, n)
    requires s.dma.regs.ct && 4 * (size * (n + 1)) < WORD32
    ensures !Inside(NextAim(s, n), p, size, n)
  {
    BelowTheEnd(p, size, n);
    StrayAim(s, p, size, n);
    StrayIsInsideIff(p, size, n);
  }

  lemma {:induction false} BelowTheEnd(p: nat, size: nat, n: nat)
    requires n >= 2 && size > 0 && p + 4 * (size * n) <= WORD32
    ensures p < WORD32
  {
    FirstIsNotSecond(p, size, n);
  }

  /** Where the chunk after the first round goes: behind the frame, one chunk left free. */
  lemma {:induction false} StrayAim(s: System, p: nat, size: nat, n: nat)
    requires n >= 4 && n % 2 == 0 && p < WORD32 && Started(s, p, size, n) && s.dma.regs.ct
    ensures NextAim(s, n) == ChunkAddress(p, size, n + 1)
  {
    StaleChunks(s, p, size, n, n);
  }

  lemma {:induction false} AimIsInside(s: System, p: nat, size: nat, n: nat, k: nat)
    requires n >= 2 && n % 2 == 0 && size > 0 && p + 4 * (size * n) <= WORD32 && Started(s, p, size, n)
    requires !s.dma.regs.ct || n == 2 || 4 * (size * (n + 1)) >= WORD32
    ensures Inside(NextAim(s, k), p, size, n)
  {
    BelowTheEnd(p, size, n);
    if !s.dma.regs.ct {
      ClearAim(s, p, size, n, k);
    } else if k >= Astray(n) {
      LateAim(s, p, size, n, k - Astray(n));
    } else if n == 2 {
      FirstAimIs(s);
      ChunkIsInside(p, size, n, 1);
    } else if k == n {
      StrayAim(s, p, size, n);
      StrayIsInsideIff(p, size, n);
    } else {
      StaleAim(s, p, size, n, k);
    }
  }

  lemma {:induction false} ClearAim(s: System, p: nat, size: nat, n: nat, k: nat)
    requires n >= 2 && n % 2 == 0 && size > 0 && p < WORD32 && p + 4 * (size * n) <= WORD32
    requires Started(s, p, size, n) && !s.dma.regs.ct
    ensures Inside(NextAim(s, k), p, size, n)
  {
    ClearWalk(s, p, size, n, k);
    ChunkIsInside(p, size, n, k % n);
  }

  lemma {:induction false} ClearWalk(s: System, p: nat, size: nat, n: nat, k: nat)
    requires n >= 2 && n % 2 == 0 && p < WORD32 && Started(s, p, size, n) && !s.dma.regs.ct
    ensures NextAim(s, k) == ChunkAddress(p, size, k % n)
  {
    ClearStart(s, p, size, n);
    WalksOn(s, p, size, n, 0, k);
  }

  lemma {:induction false} FirstAimIs(s: System)
    requires s.dma.regs.ct
    ensures Aims(s)(0) == NextAim(s, 0) == s.dma.regs.m1ar
  {
  }

  lemma {:induction false} LateAim(s: System, p: nat, size: nat, n: nat, k: nat)
    requires n >= 2 && n % 2 == 0 && size > 0 && p < WORD32 && p + 4 * (size * n) <= WORD32
    requires Started(s, p, size, n) && s.dma.regs.ct
    ensures Inside(NextAim(s, Astray(n) + k), p, size, n)
  {
    StaleWalksOn(s, p, size, n, k);
    ChunkIsInside(p, size, n, k % n);
  }

  lemma {:induction false} StaleAim(s: System, p: nat, size: nat, n: nat, k: nat)
    requires n >= 4 && n % 2 == 0 && size > 0 && p < WORD32 && p + 4 * (size * n) <= WORD32 && k < n
    requires Started(s, p, size, n) && s.dma.regs.ct
    ensures Inside(NextAim(s, k), p, size, n)
  {
    StaleChunks(s, p, size, n, k);
    ChunkIsInside(p, size, n, StaleChunk(k));
  }

  /** The stray chunk overwrites what lies behind the frame buffer. */
  lemma {:induction false} StrayChunkIsStored(
      s: System, mem: Memory, word: nat -> int, p: nat, size: nat, n: nat)
    requires n >= 4 && n % 2 == 0 && size > 0 && p + 4 * (size * (n + 2)) <= WORD32
    requires Started(s, p, size, n) && s.dma.regs.ct
    ensures MemoryAfter(Aims(s), size, mem, word, n + 1)(p + 4 * (size * n) + 4 * size) == word(n * size)
  {
    assert size * (n + 2) == size * n + 2 * size && size * (n + 1) == size * n + size;
    BelowTheEnd(p, size, n);
    StrayAim(s, p, size, n);
    AimIsNext(s, n);
    StrayIsInsideIff(p, size, n);
    LastChunkStored(Aims(s), size, mem, word, n, p + 4 * (size * n) + 4 * size);
  }

  lemma {:induction false} LastChunkStored(
      aims: nat -> nat, size: nat, mem: Memory, word: nat -> int, k: nat, a: nat)
    requires size > 0 && aims(k) == a
    ensures MemoryAfter(aims, size, mem, word, k + 1)(a) == word(k * size)
  {
    assert Chunk(word, size, k)[0] == word(k * size);
  }

  /** How the bit comes to be set: a capture stopped after an odd number of chunks, and started again. */
  lemma {:induction false} StoppingLeavesTarget(s: System, p: nat, size: nat, n: nat, k: nat, t: Transfer)
    requires n >= 2 && At(s, p, size, n, k) && Owned(s.dma)
    requires s.dma.direction != MemoryToMemory && OnError in s.dma.callbacks
    ensures var restarted := MultiBufferStartIt(Abort(s.dma, true).dma, t);
            restarted.status == Ok && (restarted.dma.regs.ct <==> k % 2 == 1)
  {
  }

  // ---------------------------------------------------------------- what a start leads to

  /** With the target bit clear the capture goes through the frame and never leaves it; set, it does neither. */
  ghost predicate GoesByTargetBit(s: System, p: nat, size: nat, n: nat, stale: bool) {
    && (Walks(Aims(s), p, size, n) <==> !stale)
    && (StaysInside(Aims(s), p, size, n) <==> !stale || n == 2 || 4 * (size * (n + 1)) >= WORD32)
  }

  lemma {:induction false} StartGoesByTargetBit(s: System, p: nat, length: nat, size: nat, n: nat)
    requires Splits(length, size, n) && length < WORD32 && p + 4 * length <= WORD32 && Started(s, p, size, n)
    ensures GoesByTargetBit(s, p, size, n, s.dma.regs.ct)
  {
    SplitBounds(length, size, n);
    assert n * size == size * n;
    CaptureWalksIff(s, p, size, n);
    StaysInsideIff(s, p, size, n);
  }
}
