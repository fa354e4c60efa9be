/** A camera frame captured in chunks: splitting it, and walking the two DMA address registers over it. */
module FrameWalk {
  import opened Arithmetic
  import opened DmaHandle

  const WORD32 := 0x1_0000_0000
  /** The longest transfer one DMA request can count. */
  const MAX_TRANSFER := 0xFFFF

  function W32(x: nat): nat {
    x % WORD32
  }

  // ---------------------------------------------------------------- splitting a frame

  predicate PowerOfTwo(n: nat) {
    n == 1 || (n > 1 && n % 2 == 0 && PowerOfTwo(n / 2))
  }

  /** `n` is the first power of two that makes the equal parts short enough for one transfer. */
  predicate Splits(length: nat, size: nat, n: nat) {
    && PowerOfTwo(n) && n >= 2
    && size == length / n <= MAX_TRANSFER < length / (n / 2)
  }

  method SplitFrame(length: nat) returns (size: nat, count: nat)
    requires length > MAX_TRANSFER
    ensures Splits(length, size, count)
  {
    count := 1;
    size := length;
    while size > MAX_TRANSFER
      invariant PowerOfTwo(count) && size == length / count
      invariant count == 1 ==> size > MAX_TRANSFER
      invariant count > 1 ==> length / (count / 2) > MAX_TRANSFER
      decreases size
    {
      QuotientOfQuotient(length, count, 2);
      ghost var before := count;
      size := size / 2;
      count := count * 2;
      assert count / 2 == before;
    }
  }

  /** The parts are of useful size, lose fewer than `n` words of a 32-bit length, and `n - 2` does not underflow. */
  lemma {:induction false} SplitBounds(length: nat, size: nat, n: nat)
    requires Splits(length, size, n) && length < WORD32
    ensures 0x8000 <= size <= 0xFFFF
    ensures n * size <= length < n * size + n
    ensures n % 2 == 0 && 2 <= n <= 0x2_0000
  {
    var half := n / 2;
    QuotientOfQuotient(length, half, 2);
    assert length == n * size + length % n;
    assert n * size == size * n;
    MulCancel(0x8000, n, 0x2_0001) by {
      MulMonotone(n, 0x8000, size);
    }
  }

  /** There is only one such split. */
  lemma {:induction false} SplitIsUnique(length: nat, size: nat, n: nat, size': nat, n': nat)
    requires Splits(length, size, n) && Splits(length, size', n')
    ensures n == n' && size == size'
  {
    if n < n' {
      FewerParts(length, n, n');
    } else if n' < n {
      FewerParts(length, n', n);
    }
  }

  lemma {:induction false} FewerParts(length: nat, n: nat, n': nat)
    requires PowerOfTwo(n) && PowerOfTwo(n') && n < n'
    ensures length / (n' / 2) <= length / n
  {
    PowersApart(n, n');
    QuotientShrinks(length, n, n' / 2);
  }

  lemma {:induction false} PowersApart(n: nat, n': nat)
    requires PowerOfTwo(n) && PowerOfTwo(n') && n < n'
    ensures n <= n' / 2
  {
    if n > 1 {
      PowersApart(n / 2, n' / 2);
    }
  }

  // ---------------------------------------------------------------- the capture handler

  /** The capture's own counters: chunks still to re-aim for, its start value, chunk size and frame address. */
  datatype Capture = Capture(xferCount: nat, transferNumber: nat, xferSize: nat, pBuffPtr: nat)

  /** What the handler did; `frame` says that it enabled the frame interrupt. */
  datatype Reaction = Reaction(capture: Capture, regs: Registers, frame: bool)

  /** The handler for either buffer's completion; `regs.ct` already selects the other buffer. */
  function XferCplt(c: Capture, r: Registers): Reaction {
    var (c', r') :=
      if c.xferCount != 0 then
        if c.xferCount % 2 == 0 && r.ct then
          (c.(xferCount := c.xferCount - 1), r.(m0ar := W32(r.m0ar + 8 * c.xferSize)))
        else if !r.ct then
          (c.(xferCount := c.xferCount - 1), r.(m1ar := W32(r.m1ar + 8 * c.xferSize)))
        else (c, r)
      else if r.ct then (c, r.(m0ar := c.pBuffPtr))
      else (c.(xferCount := c.transferNumber), r.(m1ar := W32(c.pBuffPtr + 4 * c.xferSize)));
    Reaction(c', r', c'.xferCount == c'.transferNumber)
  }

  /** The handler only ever moves the buffer the stream is not filling. */
  lemma {:induction false} HandlerMovesIdleBuffer(c: Capture, r: Registers)
    ensures var r' := XferCplt(c, r).regs;
            && r'.(m0ar := r.m0ar, m1ar := r.m1ar) == r
            && (r.ct ==> r'.m1ar == r.m1ar) && (!r.ct ==> r'.m0ar == r.m0ar)
  {
  }

  // ---------------------------------------------------------------- one completion

  /** The capture and its stream. */
  datatype System = System(capture: Capture, dma: Dma)

  /** Where the stream puts the data it receives. */
  function Target(r: Registers): nat {
    if r.ct then r.m1ar else r.m0ar
  }

  function Idle(r: Registers): nat {
    if r.ct then r.m0ar else r.m1ar
  }

  /** The stream with a chunk completed: it has turned to the other buffer. */
  function Flipped(h: Dma): Dma {
    h.(regs := h.regs.(ct := !h.regs.ct))
  }

  /** Completion: the stream flips, the interrupt calls one of two callbacks, and both are the capture handler. */
  function Complete(s: System): Reaction {
    var served := Interrupt(Flipped(s.dma), {TransferComplete});
    if served.called == [Cplt] || served.called == [M1Cplt] then XferCplt(s.capture, served.dma.regs)
    else Reaction(s.capture, served.dma.regs, false)
  }

  function After(s: System): System {
    System(Complete(s).capture, Interrupt(Flipped(s.dma), {TransferComplete}).dma.(regs := Complete(s).regs))
  }

  function AfterMany(s: System, k: nat): System {
    if k == 0 then s else After(AfterMany(s, k - 1))
  }

  // ---------------------------------------------------------------- the walk

  /** A double-buffered transfer is under way without faults and both completions reach the handler. */
  predicate Streaming(h: Dma) {
    && h.state == Transferring && h.errors == {} && h.regs.dbm && TransferComplete in h.regs.enabled
    && Cplt in h.callbacks && M1Cplt in h.callbacks
  }

  lemma {:induction false} CompletionIsHandled(s: System)
    requires Streaming(s.dma)
    ensures var h := Flipped(s.dma);
            Interrupt(h, {TransferComplete}) == Served(h, [if h.regs.ct then Cplt else M1Cplt])
  {
    var h := Flipped(s.dma);
    assert h.errors + {} == h.errors;
    assert NoteFaults(h, {TransferComplete}) == h;
  }

  /** Address of chunk `j` of the frame at `p`. */
  function ChunkAddress(p: nat, size: nat, j: nat): nat {
    W32(p + 4 * (size * j))
  }

  /** Chunks not yet re-aimed for when chunk `j` completes. */
  function Left(n: nat, j: nat): nat {
    if j + 2 <= n then n - 2 - j else 0
  }

  function NextChunk(n: nat, j: nat): nat {
    if j + 1 < n then j + 1 else 0
  }

  /** After `k` completions of chunks of `size` words of a frame of `n` chunks at `p`. */
  predicate At(s: System, p: nat, size: nat, n: nat, k: nat)
    requires n >= 2
  {
    var j := k % n;
    && Streaming(s.dma)
    && s.dma.regs.ct == (k % 2 == 1)
    && Target(s.dma.regs) == ChunkAddress(p, size, j)
    && Idle(s.dma.regs) == ChunkAddress(p, size, NextChunk(n, j))
    && s.capture == Capture(Left(n, j), n - 2, size, p)
  }

  lemma {:induction false} AdvanceTwo(p: nat, size: nat, j: nat)
    ensures W32(ChunkAddress(p, size, j) + 8 * size) == ChunkAddress(p, size, j + 2)
  {
    var x := p + 4 * (size * j);
    assert size * (j + 2) == size * j + 2 * size;
    ModAdd(x, 8 * size, WORD32);
  }

  lemma {:induction false} SameParity(k: nat, n: nat)
    requires n > 0 && n % 2 == 0
    ensures k % n % 2 == k % 2
  {
    var q, r, m := k / n, k % n, n / 2;
    assert n * q == 2 * (m * q);
    assert k == 2 * (m * q) + r;
  }

  function WithIdle(r: Registers, address: nat): Registers {
    if r.ct then r.(m0ar := address) else r.(m1ar := address)
  }

  /** Chunks remain: the buffer just filled moves two chunks on. */
  lemma {:induction false} HandlerMovesOn(c: Capture, r: Registers)
    requires c.xferCount > 0 && r.ct == (c.xferCount % 2 == 0) && c.xferCount <= c.transferNumber
    ensures XferCplt(c, r)
            == Reaction(c.(xferCount := c.xferCount - 1), WithIdle(r, W32(Idle(r) + 8 * c.xferSize)), false)
  {
  }

  /** The last two chunks are under way: the buffers go back to the first two. */
  lemma {:induction false} HandlerStartsOver(c: Capture, r: Registers)
    requires c.xferCount == 0
    ensures XferCplt(c, r)
            == Reaction(if r.ct then c else c.(xferCount := c.transferNumber),
                        WithIdle(r, if r.ct then c.pBuffPtr else W32(c.pBuffPtr + 4 * c.xferSize)),
                        !r.ct || c.transferNumber == 0)
  {
  }

  lemma {:induction false} FirstChunks(p: nat, size: nat)
    requires p < WORD32
    ensures ChunkAddress(p, size, 0) == p && ChunkAddress(p, size, 1) == (p + 4 * size) % 0x1_0000_0000
  {
    assert size * 0 == 0 && size * 1 == size;
  }

  /** The handler's reaction when chunk `j` completes: the buffer just filled moves two chunks ahead. */
  function Advanced(c: Capture, r: Registers, p: nat, size: nat, n: nat, j: nat): Reaction
    requires n >= 2
  {
    Reaction(c.(xferCount := if j == n - 1 then n - 2 else Left(n, j + 1)),
             WithIdle(r, ChunkAddress(p, size, NextChunk(n, NextChunk(n, j)))),
             n == 2 || j == n - 1)
  }

  lemma {:induction false} HandlerAdvances(c: Capture, r: Registers, p: nat, size: nat, n: nat, j: nat)
    requires n >= 2 && n % 2 == 0 && p < WORD32 && j < n
    requires r.ct == (j % 2 == 0)
    requires Idle(r) == ChunkAddress(p, size, j)
    requires c == Capture(Left(n, j), n - 2, size, p)
    ensures XferCplt(c, r) == Advanced(c, r, p, size, n, j)
  {
    if j + 2 < n {
      assert (n - 2 - j) % 2 == j % 2;
      HandlerMovesOn(c, r);
      AdvanceTwo(p, size, j);
      assert NextChunk(n, NextChunk(n, j)) == j + 2;
    } else {
      HandlerStartsOver(c, r);
      FirstChunks(p, size);
    }
  }

  /** One completion takes the walk one chunk further. */
  lemma {:induction false} StepOfWalk(s: System, p: nat, size: nat, n: nat, k: nat)
    requires n >= 2 && n % 2 == 0 && p < WORD32 && At(s, p, size, n, k)
    ensures At(After(s), p, size, n, k + 1)
    ensures Complete(s).frame <==> n == 2 || k % n == n - 1
  {
    CompletionIsHandled(s);
    NextModulo(k, n);
    SameParity(k, n);
    HandlerAdvances(s.capture, Flipped(s.dma).regs, p, size, n, k % n);
  }

  /** The walk goes on for ever: before completion `k` the stream fills chunk `k mod n` of the frame. */
  lemma {:induction false} WalkReaches(s: System, p: nat, size: nat, n: nat, k: nat)
    requires n >= 2 && n % 2 == 0 && p < WORD32 && At(s, p, size, n, 0)
    ensures At(AfterMany(s, k), p, size, n, k)
  {
    if k > 0 {
      WalkReaches(s, p, size, n, k - 1);
      StepOfWalk(AfterMany(s, k - 1), p, size, n, k - 1);
    }
  }
}
