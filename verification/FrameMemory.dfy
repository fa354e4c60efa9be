/** What the walk leaves in memory: frame after frame, every word in its place. */
module FrameMemory {
  import opened Arithmetic
  import opened FrameWalk

  /** Memory by byte address; only word-aligned entries relative to the frame matter. */
  type Memory = nat -> int

  /** The words a chunk brings: words `k * size` and on of everything the camera sends. */
  function Chunk(word: nat -> int, size: nat, k: nat): seq<int> {
    seq(size, i requires 0 <= i < size => word(k * size + i))
  }

  /** Stores consecutive 32-bit words. */
  function Fill(mem: Memory, start: nat, data: seq<int>): Memory {
    (a: nat) =>
      if start <= a < start + 4 * |data| && (a - start) % 4 == 0 then data[(a - start) / 4] else mem(a)
  }

  /** Memory after `k` completions, chunk `i` having gone to address `aims(i)`. */
  function MemoryAfter(aims: nat -> nat, size: nat, mem: Memory, word: nat -> int, k: nat): Memory {
    if k == 0 then mem
    else Fill(MemoryAfter(aims, size, mem, word, k - 1), aims(k - 1), Chunk(word, size, k - 1))
  }

  /** Chunk after chunk over a frame of `n` chunks at `p` that fits the address space, for ever. */
  ghost predicate Walks(aims: nat -> nat, p: nat, size: nat, n: nat) {
    && n > 0 && p + 4 * (size * n) <= WORD32
    && forall k: nat :: aims(k) == ChunkAddress(p, size, k % n)
  }

  /** Byte address of word `off` of chunk `c`. */
  function WordAddress(p: nat, size: nat, c: nat, off: nat): nat {
    p + 4 * (size * c + off)
  }

  lemma {:induction false} ChunkInFrame(p: nat, size: nat, n: nat, c: nat)
    requires c < n && p + 4 * (size * n) <= WORD32
    ensures size * c + size <= size * n
    ensures size > 0 ==> ChunkAddress(p, size, c) == WordAddress(p, size, c, 0)
  {
    MulMonotone(size, c + 1, n);
    assert size * (c + 1) == size * c + size;
  }

  /** Filling chunk `j` stores its words. */
  lemma {:induction false} FilledChunk(mem: Memory, p: nat, size: nat, n: nat, j: nat, data: seq<int>, off: nat)
    requires p + 4 * (size * n) <= WORD32 && j < n && |data| == size && off < size
    ensures Fill(mem, ChunkAddress(p, size, j), data)(WordAddress(p, size, j, off)) == data[off]
  {
    ChunkInFrame(p, size, n, j);
    var start := ChunkAddress(p, size, j);
    assert WordAddress(p, size, j, off) - start == 4 * off;
  }

  /** Filling chunk `j` leaves every other chunk alone. */
  lemma {:induction false} OtherChunkKept(mem: Memory, p: nat, size: nat, n: nat, j: nat, data: seq<int>, c: nat, off: nat)
    requires p + 4 * (size * n) <= WORD32 && j < n && c < n && c != j && |data| == size && off < size
    ensures Fill(mem, ChunkAddress(p, size, j), data)(WordAddress(p, size, c, off)) == mem(WordAddress(p, size, c, off))
  {
    ChunkInFrame(p, size, n, j);
    ChunkInFrame(p, size, n, c);
    if c < j {
      MulMonotone(size, c + 1, j);
      assert size * (c + 1) == size * c + size;
    } else {
      MulMonotone(size, j + 1, c);
      assert size * (j + 1) == size * j + size;
    }
  }

  /** Filling a chunk leaves everything outside the frame alone. */
  lemma {:induction false} OutsideKept(mem: Memory, p: nat, size: nat, n: nat, j: nat, data: seq<int>, a: nat)
    requires p + 4 * (size * n) <= WORD32 && j < n && |data| == size
    requires a < p || a >= p + 4 * (size * n)
    ensures Fill(mem, ChunkAddress(p, size, j), data)(a) == mem(a)
  {
    ChunkInFrame(p, size, n, j);
  }

  /** The number, counted from the start of the capture, of the last chunk stored in place `c` before completion `k`. */
  function LatestIn(n: nat, c: nat, k: nat): int
    requires n > 0
  {
    if c < k % n then (k / n) * n + c else (k / n) * n + c - n
  }

  lemma {:induction false} LatestInNext(n: nat, c: nat, k: nat)
    requires n > 0 && c < n
    ensures LatestIn(n, c, k + 1) == if c == k % n then k else LatestIn(n, c, k)
  {
    NextModulo(k, n);
    assert k == (k / n) * n + k % n;
    assert (k / n + 1) * n == (k / n) * n + n;
  }

  /**
   * After any number of completions every word of the frame buffer holds the word of the latest chunk that
   * belongs there, or its old content if none has come yet.
   */
  lemma {:induction false} MemoryHoldsLatest(
      aims: nat -> nat, size: nat, mem: Memory, word: nat -> int, p: nat, n: nat, k: nat, c: nat, off: nat)
    requires Walks(aims, p, size, n) && c < n && off < size
    ensures var latest, a := LatestIn(n, c, k), WordAddress(p, size, c, off);
            MemoryAfter(aims, size, mem, word, k)(a) == if latest >= 0 then word(latest * size + off) else mem(a)
  {
    if k == 0 {
      QuotientIs(0, n, 0, 0);
    } else {
      var before, data, j := MemoryAfter(aims, size, mem, word, k - 1), Chunk(word, size, k - 1), (k - 1) % n;
      MemoryHoldsLatest(aims, size, mem, word, p, n, k - 1, c, off);
      LatestInNext(n, c, k - 1);
      assert aims(k - 1) == ChunkAddress(p, size, j);
      if c == j {
        FilledChunk(before, p, size, n, j, data, off);
      } else {
        OtherChunkKept(before, p, size, n, j, data, c, off);
      }
    }
  }

  /** Nothing outside the frame buffer is ever written. */
  lemma {:induction false} OutsideIsKept(
      aims: nat -> nat, size: nat, mem: Memory, word: nat -> int, p: nat, n: nat, k: nat, a: nat)
    requires Walks(aims, p, size, n) && (a < p || a >= p + 4 * (size * n))
    ensures MemoryAfter(aims, size, mem, word, k)(a) == mem(a)
  {
    if k > 0 {
      OutsideIsKept(aims, size, mem, word, p, n, k - 1, a);
      assert aims(k - 1) == ChunkAddress(p, size, (k - 1) % n);
      OutsideKept(MemoryAfter(aims, size, mem, word, k - 1), p, size, n, (k - 1) % n, Chunk(word, size, k - 1), a);
    }
  }

  lemma {:induction false} LatestOfFrame(n: nat, f: nat, c: nat)
    requires n > 0 && c < n
    ensures LatestIn(n, c, (f + 1) * n) == f * n + c
  {
    assert (f + 1) * n == n * (f + 1) == f * n + n;
    QuotientIs((f + 1) * n, n, f + 1, 0);
  }

  lemma {:induction false} WordNumber(f: nat, n: nat, size: nat, c: nat, off: nat)
    ensures (f * n + c) * size + off == f * (n * size) + (size * c + off)
  {
    assert (f * n + c) * size == f * n * size + c * size;
  }

  /** When frame `f` is complete the buffer holds exactly its words, in order. */
  lemma {:induction false} FrameIsComplete(
      aims: nat -> nat, size: nat, mem: Memory, word: nat -> int, p: nat, n: nat, f: nat, i: nat)
    requires Walks(aims, p, size, n) && i < size * n
    ensures MemoryAfter(aims, size, mem, word, (f + 1) * n)(p + 4 * i) == word(f * (n * size) + i)
  {
    var c, off := i / size, i % size;
    assert i == size * c + off;
    MulCancel(size, c, n);
    LatestOfFrame(n, f, c);
    WordNumber(f, n, size, c, off);
    MemoryHoldsLatest(aims, size, mem, word, p, n, (f + 1) * n, c, off);
  }

  // ---------------------------------------------------------------- the capture's own walk

  /** Where a capture's chunks go. */
  function Aims(s: System): nat -> nat {
    (k: nat) => Target(AfterMany(s, k).dma.regs)
  }

  lemma {:induction false} CaptureWalks(s: System, p: nat, size: nat, n: nat)
    requires n >= 2 && n % 2 == 0 && p < WORD32 && At(s, p, size, n, 0) && p + 4 * (size * n) <= WORD32
    ensures Walks(Aims(s), p, size, n)
  {
    forall k: nat
      ensures Aims(s)(k) == ChunkAddress(p, size, k % n)
    {
      WalkReaches(s, p, size, n, k);
    }
  }

  /** `mem` holds `count` words from `first` on, in order, at `p`. */
  ghost predicate HoldsWords(mem: Memory, p: nat, word: nat -> int, first: nat, count: nat) {
    forall i: nat :: i < count ==> mem(p + 4 * i) == word(first + i)
  }

  /** The two memories agree outside the `bytes` bytes at `p`. */
  ghost predicate SameOutside(mem: Memory, mem': Memory, p: nat, bytes: nat) {
    forall a: nat :: a < p || a >= p + bytes ==> mem'(a) == mem(a)
  }

  function FrameWords(size: nat, n: nat): nat {
    size * n
  }

  /** The number of the first word of frame `f`, and of completions when the frame is complete. */
  function FirstWord(size: nat, n: nat, f: nat): nat {
    f * (n * size)
  }

  function CompletionsOf(n: nat, f: nat): nat {
    (f + 1) * n
  }

  lemma {:induction false} WalkFillsFrames(
      aims: nat -> nat, size: nat, mem: Memory, word: nat -> int, p: nat, n: nat, f: nat)
    requires Walks(aims, p, size, n)
    ensures var after := MemoryAfter(aims, size, mem, word, CompletionsOf(n, f));
            && HoldsWords(after, p, word, FirstWord(size, n, f), FrameWords(size, n))
            && SameOutside(mem, after, p, 4 * FrameWords(size, n))
  {
    var after := MemoryAfter(aims, size, mem, word, (f + 1) * n);
    forall i: nat | i < size * n
      ensures after(p + 4 * i) == word(f * (n * size) + i)
    {
      FrameIsComplete(aims, size, mem, word, p, n, f, i);
    }
    forall a: nat | a < p || a >= p + 4 * (size * n)
      ensures after(a) == mem(a)
    {
      OutsideIsKept(aims, size, mem, word, p, n, (f + 1) * n, a);
    }
  }

  /** A capture fills its buffer with one complete frame after the other and writes nothing else. */
  lemma {:induction false} CaptureFillsFrames(
      s: System, mem: Memory, word: nat -> int, p: nat, size: nat, n: nat, f: nat)
    requires n >= 2 && n % 2 == 0 && p < WORD32 && At(s, p, size, n, 0) && p + 4 * FrameWords(size, n) <= WORD32
    ensures var after := MemoryAfter(Aims(s), size, mem, word, CompletionsOf(n, f));
            && HoldsWords(after, p, word, FirstWord(size, n, f), FrameWords(size, n))
            && SameOutside(mem, after, p, 4 * FrameWords(size, n))
  {
    CaptureWalks(s, p, size, n);
    WalkFillsFrames(Aims(s), size, mem, word, p, n, f);
  }

  /**
   * A split capture of `length` words: fewer than `n` of them have no place in the buffer, and after every `n`
   * completions the buffer holds that many consecutive words of the stream, starting where it stopped before.
   */
  lemma {:induction false} SplitCaptureFills(
      s: System, mem: Memory, word: nat -> int, p: nat, length: nat, size: nat, n: nat, f: nat)
    requires Splits(length, size, n) && length < WORD32 && p + 4 * length <= WORD32 && At(s, p, size, n, 0)
    ensures FrameWords(size, n) <= length < FrameWords(size, n) + n
    ensures var after := MemoryAfter(Aims(s), size, mem, word, CompletionsOf(n, f));
            && HoldsWords(after, p, word, FirstWord(size, n, f), FrameWords(size, n))
            && SameOutside(mem, after, p, 4 * FrameWords(size, n))
  {
    SplitBounds(length, size, n);
    assert n * size == size * n;
    CaptureFillsFrames(s, mem, word, p, size, n, f);
  }

  // ---------------------------------------------------------------- the camera's own frames

  /** The number of the first word of the camera's frame `f`. */
  function FrameStart(length: nat, f: nat): nat {
    f * length
  }

  /** After `f + 1` rounds the buffer shows the beginning of the camera's frame `f`, whatever the camera sends. */
  ghost predicate ShowsFrame(s: System, mem: Memory, p: nat, length: nat, size: nat, n: nat, f: nat) {
    forall word: nat -> int :: ShowsFrameOf(word, s, mem, p, length, size, n, f)
  }

  ghost predicate ShowsFrameOf(word: nat -> int, s: System, mem: Memory, p: nat, length: nat, size: nat, n: nat, f: nat) {
    HoldsWords(MemoryAfter(Aims(s), size, mem, word, CompletionsOf(n, f)), p, word, FrameStart(length, f), FrameWords(size, n))
  }

  /** How far a round begins before the frame it should show: what was not captured of the earlier ones. */
  lemma {:induction false} DriftIs(length: nat, size: nat, n: nat, f: nat)
    requires n > 0 && size == length / n
    ensures FirstWord(size, n, f) == FrameStart(length, f) - f * (length % n)
  {
    assert length == n * size + length % n;
    assert f * length == f * (n * size) + f * (length % n);
  }

  lemma {:induction false} ProductIsZero(a: nat, b: nat)
    ensures a * b == 0 <==> a == 0 || b == 0
  {
  }

  /** Each frame is shown in its own place if and only if it is the first one or no word of a frame is left over. */
  lemma {:induction false} FrameIsShownIff(s: System, mem: Memory, p: nat, length: nat, size: nat, n: nat, f: nat)
    requires Splits(length, size, n) && length < WORD32 && p + 4 * length <= WORD32 && At(s, p, size, n, 0)
    ensures ShowsFrame(s, mem, p, length, size, n, f) <==> f == 0 || length % n == 0
  {
    DriftIs(length, size, n, f);
    ProductIsZero(f, length % n);
    if FirstWord(size, n, f) == FrameStart(length, f) {
      FrameIsShown(s, mem, p, length, size, n, f);
    } else {
      FrameIsMissed(s, mem, p, length, size, n, f);
    }
  }

  lemma {:induction false} FrameIsShown(s: System, mem: Memory, p: nat, length: nat, size: nat, n: nat, f: nat)
    requires Splits(length, size, n) && length < WORD32 && p + 4 * length <= WORD32 && At(s, p, size, n, 0)
    requires FirstWord(size, n, f) == FrameStart(length, f)
    ensures ShowsFrame(s, mem, p, length, size, n, f)
  {
    SplitBounds(length, size, n);
    forall word: nat -> int
      ensures ShowsFrameOf(word, s, mem, p, length, size, n, f)
    {
      SplitCaptureFills(s, mem, word, p, length, size, n, f);
    }
  }

  /** A camera that numbers its words shows the difference at the first word. */
  lemma {:induction false} FrameIsMissed(s: System, mem: Memory, p: nat, length: nat, size: nat, n: nat, f: nat)
    requires Splits(length, size, n) && length < WORD32 && p + 4 * length <= WORD32 && At(s, p, size, n, 0)
    requires FirstWord(size, n, f) != FrameStart(length, f)
    ensures !ShowsFrame(s, mem, p, length, size, n, f)
  {
    var word := (i: nat) => i;
    SplitBounds(length, size, n);
    SplitCaptureFills(s, mem, word, p, length, size, n, f);
    ProductIsZero(size, n);
    OnlyOneStart(MemoryAfter(Aims(s), size, mem, word, CompletionsOf(n, f)), p, word, FirstWord(size, n, f),
                 FrameStart(length, f), FrameWords(size, n));
    assert !ShowsFrameOf(word, s, mem, p, length, size, n, f);
  }

  lemma {:induction false} OnlyOneStart(mem: Memory, p: nat, word: nat -> int, first: nat, first': nat, count: nat)
    requires HoldsWords(mem, p, word, first, count) && count > 0 && word(first) != word(first')
    ensures !HoldsWords(mem, p, word, first', count)
  {
    var i := 0;
    assert mem(p + 4 * i) == word(first + i);
    assert first' + i == first';
  }
}
