/** The DMA driver as it runs: a handle whose fields and registers the calls update step by step. */
module DmaStream {
  import opened DmaHandle

  class Stream {
    var state: DmaState
    var locked: bool
    var errors: set<ErrorBit>
    var callbacks: set<Callback>
    var direction: Direction
    var circularMode: bool
    var regs: Registers

    function Abs(): Dma
      reads this
    {
      Dma(state, locked, errors, callbacks, direction, circularMode, regs)
    }

    method SetConfig(src: nat, dst: nat, len: nat)
      modifies this`regs
      ensures regs == DmaHandle.SetConfig(old(regs), direction, src, dst, len)
    {
      regs := regs.(ndtr := len);
      if direction == MemoryToPeriph {
        regs := regs.(par := dst);
        regs := regs.(m0ar := src);
      } else {
        regs := regs.(par := src);
        regs := regs.(m0ar := dst);
      }
    }

    method EnableInterrupts(multi: bool)
      modifies this`regs
      ensures regs == WithInterrupts(old(regs), callbacks, multi)
    {
      var enabled := regs.enabled + TRANSFER_INTERRUPTS;
      if multi {
        enabled := enabled + {FifoError};
      }
      if HalfCplt in callbacks || (multi && M1HalfCplt in callbacks) {
        enabled := enabled + {HalfTransfer};
      }
      assert enabled == WithInterrupts(regs, callbacks, multi).enabled;
      regs := regs.(enabled := enabled);
    }

    /** Takes a ready handle for a transfer; the lock is taken first and given back if the handle is not ready. */
    method Claim() returns (claimed: bool)
      modifies this`state, this`locked, this`errors
      ensures claimed == (!old(locked) && old(state) == Ready)
      ensures Abs() == if claimed then Claimed(old(Abs())) else old(Abs())
    {
      if locked {
        return false;
      }
      locked := true;
      if state == Ready {
        state := Transferring;
        errors := {};
        return true;
      } else {
        locked := false;
        return false;
      }
    }

    method Start(src: nat, dst: nat, len: nat) returns (status: HalStatus)
      modifies this
      ensures Answer(Abs(), status) == DmaHandle.Start(old(Abs()), Transfer(src, dst, 0, len))
    {
      var claimed := Claim();
      if !claimed {
        return Busy;
      }
      regs := regs.(dbm := false);
      SetConfig(src, dst, len);
      regs := regs.(en := true);
      return Ok;
    }

    method StartIt(src: nat, dst: nat, len: nat) returns (status: HalStatus)
      modifies this
      ensures Answer(Abs(), status) == DmaHandle.StartIt(old(Abs()), Transfer(src, dst, 0, len))
    {
      var claimed := Claim();
      if !claimed {
        return Busy;
      }
      regs := regs.(dbm := false);
      SetConfig(src, dst, len);
      EnableInterrupts(false);
      regs := regs.(en := true);
      return Ok;
    }

    method MultiBufferStartIt(src: nat, dst: nat, second: nat, len: nat) returns (status: HalStatus)
      modifies this
      ensures Answer(Abs(), status) == DmaHandle.MultiBufferStartIt(old(Abs()), Transfer(src, dst, second, len))
    {
      if direction == MemoryToMemory {
        errors := {NotSupported};
        return Error;
      }
      if Cplt !in callbacks || M1Cplt !in callbacks || OnError !in callbacks {
        errors := {BadParam};
        return Error;
      }
      var claimed := Claim();
      if !claimed {
        return Busy;
      }
      regs := regs.(dbm := true);
      regs := regs.(m1ar := second);
      SetConfig(src, dst, len);
      EnableInterrupts(true);
      regs := regs.(en := true);
      return Ok;
    }

    /** The polling variant takes the lock first and keeps it when the handle is not ready. */
    method MultiBufferStart(src: nat, dst: nat, second: nat, len: nat) returns (status: HalStatus)
      modifies this
      ensures Answer(Abs(), status) == DmaHandle.MultiBufferStart(old(Abs()), Transfer(src, dst, second, len))
    {
      if direction == MemoryToMemory {
        errors := {NotSupported};
        return Error;
      }
      if locked {
        return Busy;
      }
      locked := true;
      if state != Ready {
        return Busy;
      }
      state := Transferring;
      regs := regs.(dbm := true);
      regs := regs.(m1ar := second);
      SetConfig(src, dst, len);
      regs := regs.(en := true);
      return Ok;
    }

    method Silence()
      modifies this`regs
      ensures regs == Silenced(old(regs), callbacks)
    {
      var enabled := regs.enabled - TRANSFER_INTERRUPTS - {FifoError};
      if HalfCplt in callbacks || M1HalfCplt in callbacks {
        enabled := enabled - {HalfTransfer};
      }
      assert enabled == Silenced(regs, callbacks).enabled;
      regs := regs.(enabled := enabled);
    }

    /** `stops`: the stream disables itself before the timeout. */
    method Abort(stops: bool) returns (status: HalStatus)
      modifies this
      ensures Answer(Abs(), status) == DmaHandle.Abort(old(Abs()), stops)
    {
      if state != Transferring {
        errors := {NoTransfer};
        locked := false;
        return Error;
      }
      Silence();
      if !stops {
        errors := {TimeoutFault};
        locked := false;
        state := TimedOut;
        return Timeout;
      }
      regs := regs.(en := false);
      locked := false;
      state := Ready;
      return Ok;
    }

    method AbortIt() returns (status: HalStatus)
      modifies this
      ensures Answer(Abs(), status) == DmaHandle.AbortIt(old(Abs()))
    {
      if state != Transferring {
        errors := {NoTransfer};
        return Error;
      }
      state := Aborting;
      regs := regs.(en := false);
      return Ok;
    }

    /** `noted`: the faults seen while waiting; `expired`: the timer ran out first. */
    method PollForTransfer(full: bool, noted: set<ErrorBit>, expired: bool, stops: bool) returns (status: HalStatus)
      modifies this
      ensures Answer(Abs(), status) == Poll(old(Abs()), full, noted, expired, stops)
    {
      status := Ok;
      if state != Transferring {
        errors := {NoTransfer};
        locked := false;
        return Error;
      }
      if regs.circ {
        errors := {NotSupported};
        return Error;
      }
      if TransferFault !in errors + noted && expired {
        errors := {TimeoutFault};
        locked := false;
        state := Ready;
        return Timeout;
      }
      errors := errors + noted;
      if errors != {} {
        if TransferFault in errors {
          var _ := Abort(stops);
          locked := false;
          state := Ready;
          return Error;
        }
      }
      if full {
        locked := false;
        state := Ready;
      }
    }

    method Init(stops: bool, fifoOk: bool) returns (status: HalStatus)
      modifies this
      ensures Answer(Abs(), status) == DmaHandle.Init(old(Abs()), stops, fifoOk)
    {
      locked := false;
      state := Transferring;
      if !stops {
        errors := {TimeoutFault};
        state := TimedOut;
        return Timeout;
      }
      regs := regs.(en := false);
      regs := regs.(circ := circularMode, dbm := false, ct := false);
      if !fifoOk {
        errors := {BadParam};
        state := Ready;
        return Error;
      }
      errors := {};
      state := Ready;
      return Ok;
    }

    /** `present`: the pointer is not null. */
    method RegisterCallback(id: CallbackId, present: bool) returns (status: HalStatus)
      modifies this
      ensures Answer(Abs(), status) == Register(old(Abs()), id, present)
    {
      status := Ok;
      if locked {
        return Busy;
      }
      locked := true;
      if state == Ready {
        match id
        case One(callback) =>
          callbacks := if present then callbacks + {callback} else callbacks - {callback};
        case _ =>
      } else {
        status := Error;
      }
      locked := false;
    }

    method UnRegisterCallback(id: CallbackId) returns (status: HalStatus)
      modifies this
      ensures Answer(Abs(), status) == UnRegister(old(Abs()), id)
    {
      status := Ok;
      if locked {
        return Busy;
      }
      locked := true;
      if state == Ready {
        match id
        case One(callback) =>
          callbacks := callbacks - {callback};
        case All =>
          callbacks := {};
        case Unknown =>
          status := Error;
      } else {
        status := Error;
      }
      locked := false;
    }

    method DeInit() returns (status: HalStatus)
      modifies this
      ensures Answer(Abs(), status) == DmaHandle.DeInit(old(Abs()))
    {
      if state == Transferring {
        return Busy;
      }
      regs := Registers(false, false, false, false, {}, 0, 0, 0, 0);
      callbacks := {};
      errors := {};
      state := Reset;
      locked := false;
      return Ok;
    }

    /** Notes the fault flags, then serves half transfer and completion, then the error case. */
    method Interrupt(isr: set<Flag>) returns (called: seq<Callback>)
      modifies this
      ensures Served(Abs(), called) == DmaHandle.Interrupt(old(Abs()), isr)
    {
      called := [];
      ServeFaultFlags(isr);
      if HalfTransfer in isr && HalfTransfer in regs.enabled {
        called := ServeHalfTransfer();
      }
      if TransferComplete in isr && TransferComplete in regs.enabled {
        if state == Aborting {
          Silence();
          locked := false;
          state := Ready;
          return called + Call(Abs(), OnAbort);
        }
        var completed := ServeCompletion();
        called := called + completed;
      }
      var failed := ServeErrors();
      called := called + failed;
    }

    method ServeFaultFlags(isr: set<Flag>)
      modifies this`errors, this`regs
      ensures Abs() == NoteFaults(old(Abs()), isr)
    {
      if TransferError in isr && TransferError in regs.enabled {
        regs := regs.(enabled := regs.enabled - {TransferError});
        errors := errors + {TransferFault};
      }
      if FifoError in isr && FifoError in regs.enabled {
        errors := errors + {FifoFault};
      }
      if DirectModeError in isr && DirectModeError in regs.enabled {
        errors := errors + {DirectModeFault};
      }
      assert errors == NoteFaults(old(Abs()), isr).errors;
    }

    method ServeHalfTransfer() returns (called: seq<Callback>)
      modifies this`regs
      ensures Served(Abs(), called) == HalfWay(old(Abs()))
    {
      if regs.dbm {
        // the buffer in use is memory 0 while the target bit is clear
        if !regs.ct {
          called := Call(Abs(), HalfCplt);
        } else {
          called := Call(Abs(), M1HalfCplt);
        }
      } else {
        if !regs.circ {
          regs := regs.(enabled := regs.enabled - {HalfTransfer});
        }
        called := Call(Abs(), HalfCplt);
      }
    }

    method ServeCompletion() returns (called: seq<Callback>)
      modifies this`regs, this`locked, this`state
      ensures Served(Abs(), called) == Completed(old(Abs()))
    {
      if regs.dbm {
        if !regs.ct {
          called := Call(Abs(), M1Cplt);
        } else {
          called := Call(Abs(), Cplt);
        }
      } else {
        if !regs.circ {
          regs := regs.(enabled := regs.enabled - {TransferComplete});
          locked := false;
          state := Ready;
        }
        called := Call(Abs(), Cplt);
      }
    }

    method ServeErrors() returns (called: seq<Callback>)
      modifies this`regs, this`locked, this`state
      ensures Served(Abs(), called) == Faulty(old(Abs()))
    {
      called := [];
      if errors != {} {
        if TransferFault in errors {
          state := Aborting;
          regs := regs.(en := false);
          locked := false;
          state := Ready;
        }
        called := Call(Abs(), OnError);
      }
    }

    /** Re-aims one buffer on the fly. Callers are to leave the current target alone; nothing here makes sure of it. */
    method ChangeMemory(address: nat, memory1: bool)
      modifies this`regs
      ensures regs == if memory1 then old(regs).(m1ar := address) else old(regs).(m0ar := address)
    {
      if !memory1 {
        regs := regs.(m0ar := address);
      } else {
        regs := regs.(m1ar := address);
      }
    }

    /** The hardware's own step at the end of a buffer in double-buffer mode. */
    method SwitchTarget()
      modifies this`regs
      ensures Abs() == old(Abs()).(regs := old(regs).(ct := !old(regs).ct))
    {
      regs := regs.(ct := !regs.ct);
    }
  }
}
