/** The camera interface as it runs: starting a capture and serving the completion of its chunks. */
module Camera {
  import opened DmaHandle
  import opened DmaStream
  import opened DmaCalls
  import opened FrameWalk
  import opened StaleTarget

  /** The stream is on and takes its data from `source`. */
  predicate Fed(h: Dma, source: nat) {
    h.regs.en && h.regs.par == source && h.direction == PeriphToMemory
  }

  /**
   * A split capture of `length` words at `p` has begun: `n` chunks of `size` words from `source`, the target bit as it
   * was before. If the frame fits the address space, where its chunks go depends on that bit.
   */
  ghost predicate DoubleStarted(s: System, source: nat, p: nat, length: nat, size: nat, n: nat, stale: bool) {
    && n >= 2 && Started(s, p, size, n) && Fed(s.dma, source) && s.dma.regs.ndtr == size && s.dma.regs.ct == stale
    && (p + 4 * length <= WORD32 ==> GoesByTargetBit(s, p, size, n, stale))
  }

  /** A capture in one piece has begun: `length` words from `source` to `p`, its completion reaching the handler. */
  predicate SingleStarted(s: System, source: nat, p: nat, length: nat) {
    && s.dma.state == Transferring && s.dma.errors == {} && Fed(s.dma, source) && !s.dma.regs.dbm
    && s.dma.regs.m0ar == p && s.dma.regs.ndtr == length
    && TransferComplete in s.dma.regs.enabled && Cplt in s.dma.callbacks
    && s.capture.xferCount == s.capture.transferNumber == 0
  }

  /** A stream that is taken goes on as it was. */
  predicate Refused(before: Dma, after: Dma) {
    after.regs == before.regs && after.state == before.state && after.locked == before.locked
  }

  /** The capture handlers for completion and errors, and none for aborts. */
  function Listening(callbacks: set<Callback>, double: bool): set<Callback> {
    callbacks + {Cplt, OnError} + (if double then {M1Cplt} else {}) - {OnAbort}
  }

  lemma {:induction false} StartAnswers(h: Dma, r: Request)
    requires IsStart(r)
    ensures Serve(h, r).dma.callbacks == h.callbacks
    ensures h.locked || h.state != Ready ==> Refused(h, Serve(h, r).dma)
  {
  }

  lemma {:induction false} StreamStarts(h: Dma, source: nat, p: nat, length: nat, size: nat, n: nat)
    requires !h.locked && h.state == Ready && h.direction == PeriphToMemory && CanMultiBuffer(h)
    requires p < WORD32 && Splits(length, size, n) && length < WORD32
    ensures var a := MultiBufferStartIt(h, Transfer(source, p, W32(p + 4 * size), size));
            DoubleStarted(System(Capture(n - 2, n - 2, size, p), a.dma), source, p, length, size, n, h.regs.ct)
  {
    var s := System(Capture(n - 2, n - 2, size, p),
                    MultiBufferStartIt(h, Transfer(source, p, W32(p + 4 * size), size)).dma);
    FirstChunks(p, size);
    assert Started(s, p, size, n);
    if p + 4 * length <= WORD32 {
      StartGoesByTargetBit(s, p, length, size, n);
    }
  }

  lemma {:induction false} StreamStartsSingle(h: Dma, source: nat, p: nat, length: nat, size: nat, buffer: nat)
    requires !h.locked && h.state == Ready && h.direction == PeriphToMemory && Cplt in h.callbacks
    ensures SingleStarted(System(Capture(0, 0, size, buffer), StartIt(h, Transfer(source, p, 0, length)).dma), source, p, length)
  {
  }

  /** A capture in one piece calls the handler when it is complete; outside circular mode the stream is free. */
  lemma {:induction false} SingleCompletes(s: System, source: nat, p: nat, length: nat)
    requires SingleStarted(s, source, p, length)
    ensures var served := Interrupt(s.dma, {TransferComplete});
            && served.called == [Cplt]
            && served.dma.regs.ct == s.dma.regs.ct && SameAim(s.dma.regs, served.dma.regs)
            && (!s.dma.regs.circ ==> served.dma.state == Ready && !served.dma.locked)
            && XferCplt(s.capture, served.dma.regs).frame
            && (!s.dma.regs.ct ==> XferCplt(s.capture, served.dma.regs).regs.m0ar == p)
  {
    SingleBufferCompletes(s.dma, {TransferComplete});
    InterruptFrees(s.dma, {TransferComplete});
  }

  datatype CameraState = Idling | Capturing

  class Dcmi {
    var locked: bool
    var state: CameraState
    var enabled: bool
    var snapshot: bool
    var captureOn: bool
    var frameInterrupt: bool
    var xferCount: nat
    var xferTransferNumber: nat
    var xferSize: nat
    var pBuffPtr: nat
    /** Address of the data register the stream reads. */
    const dataRegister: nat
    const dma: Stream

    constructor (dataRegister: nat, dma: Stream)
      ensures this.dma == dma && this.dataRegister == dataRegister && !locked
    {
      this.dataRegister, this.dma := dataRegister, dma;
      locked, state, enabled, snapshot, captureOn, frameInterrupt := false, Idling, false, false, false, false;
      xferCount, xferTransferNumber, xferSize, pBuffPtr := 0, 0, 0, 0;
    }

    function Counters(): Capture
      reads this
    {
      Capture(xferCount, xferTransferNumber, xferSize, pBuffPtr)
    }

    function Whole(): System
      reads this, dma
    {
      System(Counters(), dma.Abs())
    }

    /** The stream can take a double-buffered capture: free, and moving data from the camera to memory. */
    predicate StreamFree()
      reads this, dma
    {
      !dma.locked && dma.state == Ready && dma.direction == PeriphToMemory
    }

    /**
     * Starts a capture of `length` words at `pData`. A frame too long for one transfer is split and walked
     * with two buffers; the target bit is left as it is, and decides where the chunks go. The stream's own answer
     * is ignored.
     */
    method StartDma(once: bool, pData: nat, length: nat) returns (status: HalStatus)
      requires pData < WORD32 && length < WORD32
      modifies this, dma
      ensures old(locked) ==> status == Busy && Whole() == old(Whole()) && state == old(state)
      ensures !old(locked) ==> status == Ok && !locked && state == Capturing && enabled && captureOn && snapshot == once
      ensures !old(locked) ==> frameInterrupt == old(frameInterrupt)
      ensures !old(locked) ==> dma.callbacks == Listening(old(dma.callbacks), length > 0xFFFF)
      ensures !old(locked) && (old(dma.locked) || old(dma.state) != Ready) ==> Refused(old(dma.Abs()), dma.Abs())
      ensures !old(locked) && length <= 0xFFFF ==>
                xferCount == xferTransferNumber == 0
                && (old(StreamFree()) ==> SingleStarted(Whole(), dataRegister, pData, length))
      ensures !old(locked) && length > 0xFFFF ==>
                Splits(length, xferSize, xferTransferNumber + 2) && pBuffPtr == pData
                && (old(StreamFree()) ==>
                      DoubleStarted(Whole(), dataRegister, pData, length, xferSize, xferTransferNumber + 2, old(dma.regs.ct)))
    {
      if locked {
        return Busy;
      }
      locked := true;
      state := Capturing;
      enabled := true;
      snapshot := once;
      StartTransfer(pData, length);
      captureOn := true;
      locked := false;
      return Ok;
    }

    /** Sets the stream's callbacks and starts it in one piece or split. */
    method StartTransfer(pData: nat, length: nat)
      requires pData < WORD32 && length < WORD32
      modifies this`xferCount, this`xferTransferNumber, this`xferSize, this`pBuffPtr, dma
      ensures dma.callbacks == Listening(old(dma.callbacks), length > MAX_TRANSFER)
      ensures old(dma.locked) || old(dma.state) != Ready ==> Refused(old(dma.Abs()), dma.Abs())
      ensures length <= MAX_TRANSFER ==>
                xferCount == xferTransferNumber == 0
                && (old(StreamFree()) ==> SingleStarted(Whole(), dataRegister, pData, length))
      ensures length > MAX_TRANSFER ==>
                Splits(length, xferSize, xferTransferNumber + 2) && pBuffPtr == pData
                && (old(StreamFree()) ==>
                      DoubleStarted(Whole(), dataRegister, pData, length, xferSize, xferTransferNumber + 2, old(dma.regs.ct)))
    {
      dma.callbacks := dma.callbacks + {Cplt};
      dma.callbacks := dma.callbacks + {OnError};
      dma.callbacks := dma.callbacks - {OnAbort};
      xferCount := 0;
      xferTransferNumber := 0;
      if length <= MAX_TRANSFER {
        StartSingle(pData, length);
      } else {
        StartDouble(pData, length);
      }
    }

    method StartSingle(pData: nat, length: nat)
      requires Cplt in dma.callbacks && OnError in dma.callbacks
      requires xferCount == xferTransferNumber == 0
      modifies dma
      ensures dma.callbacks == old(dma.callbacks)
      ensures old(dma.locked) || old(dma.state) != Ready ==> Refused(old(dma.Abs()), dma.Abs())
      ensures old(StreamFree()) ==> SingleStarted(Whole(), dataRegister, pData, length)
    {
      ghost var before := dma.Abs();
      StartAnswers(before, StartItCall(Transfer(dataRegister, pData, 0, length)));
      var _ := dma.StartIt(dataRegister, pData, length);
      if old(StreamFree()) {
        StreamStartsSingle(before, dataRegister, pData, length, xferSize, pBuffPtr);
      }
    }

    method StartDouble(pData: nat, length: nat)
      requires pData < WORD32 && MAX_TRANSFER < length < WORD32
      requires Cplt in dma.callbacks && OnError in dma.callbacks
      modifies this`xferCount, this`xferTransferNumber, this`xferSize, this`pBuffPtr, dma
      ensures Splits(length, xferSize, xferTransferNumber + 2) && pBuffPtr == pData
      ensures dma.callbacks == old(dma.callbacks) + {M1Cplt}
      ensures old(dma.locked) || old(dma.state) != Ready ==> Refused(old(dma.Abs()), dma.Abs())
      ensures old(StreamFree()) ==>
                DoubleStarted(Whole(), dataRegister, pData, length, xferSize, xferTransferNumber + 2, old(dma.regs.ct))
    {
      dma.callbacks := dma.callbacks + {M1Cplt};
      Divide(pData, length);
      StartStream(pData, length);
    }

    method StartStream(pData: nat, length: nat)
      requires pData < WORD32 && length < WORD32 && Splits(length, xferSize, xferTransferNumber + 2)
      requires Counters() == Capture(xferTransferNumber, xferTransferNumber, xferSize, pData)
      requires CanMultiBuffer(dma.Abs())
      modifies dma
      ensures dma.callbacks == old(dma.callbacks)
      ensures old(dma.locked) || old(dma.state) != Ready ==> Refused(old(dma.Abs()), dma.Abs())
      ensures old(StreamFree()) ==>
                DoubleStarted(Whole(), dataRegister, pData, length, xferSize, xferTransferNumber + 2, old(dma.regs.ct))
    {
      var secondMemAddress := W32(pData + 4 * xferSize);
      ghost var before := dma.Abs();
      StartAnswers(before, MultiBufferStartItCall(Transfer(dataRegister, pData, secondMemAddress, xferSize)));
      var _ := dma.MultiBufferStartIt(dataRegister, pData, secondMemAddress, xferSize);
      if old(StreamFree()) {
        StreamStarts(before, dataRegister, pData, length, xferSize, xferTransferNumber + 2);
      }
    }

    /** The number of chunks and their size. */
    method Divide(pData: nat, length: nat)
      requires MAX_TRANSFER < length < WORD32
      modifies this`xferCount, this`xferTransferNumber, this`xferSize, this`pBuffPtr
      ensures Splits(length, xferSize, xferTransferNumber + 2)
      ensures Counters() == Capture(xferTransferNumber, xferTransferNumber, xferSize, pData)
    {
      pBuffPtr := pData;
      xferSize, xferCount := SplitFrame(length);
      SplitBounds(length, xferSize, xferCount);
      xferCount := xferCount - 2;
      xferTransferNumber := xferCount;
    }

    /** Called for either buffer once the stream has turned to the other one. */
    method OnTransferComplete()
      modifies this`xferCount, this`frameInterrupt, this`state, dma`regs
      ensures var o := XferCplt(old(Counters()), old(dma.regs));
              && Counters() == o.capture && dma.regs == o.regs
              && frameInterrupt == (old(frameInterrupt) || o.frame)
              && state == if o.frame && snapshot then Idling else old(state)
    {
      if xferCount != 0 {
        // update memory 0 address location
        if xferCount % 2 == 0 && dma.regs.ct {
          dma.ChangeMemory(W32(dma.regs.m0ar + 8 * xferSize), false);
          xferCount := xferCount - 1;
        }
        // update memory 1 address location
        else if !dma.regs.ct {
          dma.ChangeMemory(W32(dma.regs.m1ar + 8 * xferSize), true);
          xferCount := xferCount - 1;
        }
      } else if dma.regs.ct {
        dma.ChangeMemory(pBuffPtr, false);
      } else if !dma.regs.ct {
        dma.ChangeMemory(W32(pBuffPtr + 4 * xferSize), true);
        xferCount := xferTransferNumber;
      }
      // the frame is transferred
      if xferCount == xferTransferNumber {
        frameInterrupt := true;
        if snapshot {
          state := Idling;
        }
      }
    }

    /** A chunk is complete: the stream switches and its interrupt calls the handler. */
    method ChunkDone()
      modifies this`xferCount, this`frameInterrupt, this`state, dma
      ensures Whole() == After(old(Whole()))
      ensures frameInterrupt == (old(frameInterrupt) || Complete(old(Whole())).frame)
    {
      dma.SwitchTarget();
      var called := dma.Interrupt({TransferComplete});
      if called == [Cplt] || called == [M1Cplt] {
        OnTransferComplete();
      }
    }

    /** A capture in one piece is complete: its frame ends, and a snapshot with it. */
    method SingleDone(ghost source: nat, ghost p: nat, ghost length: nat)
      modifies this`xferCount, this`frameInterrupt, this`state, dma
      ensures old(SingleStarted(Whole(), source, p, length)) ==>
                && frameInterrupt && state == (if snapshot then Idling else old(state))
                && (!old(dma.regs.circ) ==> dma.state == Ready && !dma.locked)
                && (!old(dma.regs.ct) ==> dma.regs.m0ar == p)
    {
      if SingleStarted(Whole(), source, p, length) {
        SingleCompletes(Whole(), source, p, length);
      }
      var called := dma.Interrupt({TransferComplete});
      if called == [Cplt] || called == [M1Cplt] {
        OnTransferComplete();
      }
    }
  }
}
