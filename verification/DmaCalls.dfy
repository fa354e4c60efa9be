/** What the calls and interrupts of a DMA stream mean to those who use it, register by register, callback by callback. */
module DmaCalls {
  import opened DmaHandle

  // ---------------------------------------------------------------- starting

  function TransferOf(r: Request): Transfer
    requires IsStart(r)
  {
    r.t
  }

  /** The stream moves `t.len` items from the source to the destination; which of them is memory depends on the direction. */
  predicate Moves(h: Dma, t: Transfer) {
    && h.regs.en && h.regs.ndtr == t.len
    && if h.direction == MemoryToPeriph then h.regs.m0ar == t.src && h.regs.par == t.dst
       else h.regs.par == t.src && h.regs.m0ar == t.dst
  }

  /** The interrupts a start switches on: none when polling, the fifth for two buffers, half only if anybody listens. */
  predicate WantsInterrupt(r: Request, callbacks: set<Callback>, f: Flag) {
    match f
    case TransferComplete => !r.StartCall?
    case TransferError => !r.StartCall?
    case DirectModeError => !r.StartCall?
    case FifoError => r.MultiBufferStartItCall?
    case HalfTransfer => !r.StartCall? && (HalfCplt in callbacks || (r.MultiBufferStartItCall? && M1HalfCplt in callbacks))
  }

  /** A start that succeeds moves what it was asked to, under the lock, with those interrupts; the rest is as before. */
  lemma {:induction false} StartMoves(h: Dma, r: Request)
    requires IsStart(r) && Serve(h, r).status == Ok
    ensures var now, t := Serve(h, r).dma, TransferOf(r);
            && now.state == Transferring && now.locked && now.errors == {} && Moves(now, t)
            && now.regs.dbm == r.MultiBufferStartItCall?
            && now.regs.m1ar == (if r.MultiBufferStartItCall? then t.second else h.regs.m1ar)
            && now.regs.ct == h.regs.ct && now.regs.circ == h.regs.circ
            && now.callbacks == h.callbacks && now.direction == h.direction
            && forall f :: f in now.regs.enabled <==> f in h.regs.enabled || WantsInterrupt(r, h.callbacks, f)
  {
  }

  /** A start that fails leaves the transfer, the registers and the lock alone. */
  lemma {:induction false} RefusedStartKeeps(h: Dma, r: Request)
    requires IsStart(r) && Serve(h, r).status != Ok
    ensures Serve(h, r).dma.(errors := h.errors) == h
    ensures Serve(h, r).status == Busy ==> Serve(h, r).dma == h
    ensures Serve(h, r).status == Busy || Serve(h, r).status == Error
  {
  }

  /** The polling multi-buffer start moves the same way, without touching interrupts. */
  lemma {:induction false} PollingStartMoves(h: Dma, t: Transfer)
    requires MultiBufferStart(h, t).status == Ok
    ensures var now := MultiBufferStart(h, t).dma;
            && now.state == Transferring && now.locked && Moves(now, t) && now.regs.dbm && now.regs.m1ar == t.second
            && now.regs.enabled == h.regs.enabled && now.callbacks == h.callbacks && now.errors == h.errors
  {
  }

  // ---------------------------------------------------------------- aborting

  /** None of the transfer's interrupts is on; half only stays if nobody listens. */
  predicate Quiet(before: Dma, after: Dma) {
    && (forall f :: f in after.regs.enabled ==> f in before.regs.enabled)
    && TransferComplete !in after.regs.enabled && TransferError !in after.regs.enabled
    && DirectModeError !in after.regs.enabled && FifoError !in after.regs.enabled
    && (HalfCplt in before.callbacks || M1HalfCplt in before.callbacks ==> HalfTransfer !in after.regs.enabled)
  }

  /** Addresses, counter and buffer mode. */
  predicate SameAim(r: Registers, r': Registers) {
    r'.(en := r.en, enabled := r.enabled) == r
  }

  /** An aborted stream is disabled and silent, its handle free again; if it does not stop the handle says so. */
  lemma {:induction false} AbortStops(h: Dma, stops: bool)
    requires h.state == Transferring
    ensures var a := Abort(h, stops);
            && Quiet(h, a.dma) && SameAim(h.regs, a.dma.regs) && !a.dma.locked && a.dma.callbacks == h.callbacks
            && (stops ==> a.status == Ok && a.dma.state == Ready && !a.dma.regs.en && a.dma.errors == h.errors)
            && (!stops ==> a.status == Timeout && a.dma.state == TimedOut && a.dma.errors == {TimeoutFault}
                           && a.dma.regs.en == h.regs.en)
  {
  }

  lemma {:induction false} NothingToAbort(h: Dma, stops: bool)
    requires h.state != Transferring
    ensures var a, i := Abort(h, stops), AbortIt(h);
            && a.status == Error && a.dma == h.(errors := {NoTransfer}, locked := false)
            && i.status == Error && i.dma == h.(errors := {NoTransfer})
  {
  }

  /**
   * An abort by interrupt disables the stream at once and keeps the lock; the completion interrupt then frees the
   * handle, silences the stream and calls the abort callback, but no completion and no error callback.
   */
  lemma {:induction false} AbortItCompletes(h: Dma, isr: set<Flag>)
    requires h.state == Transferring && TransferComplete in isr && TransferComplete in h.regs.enabled
    ensures var a := AbortIt(h);
            && a.status == Ok && a.dma.state == Aborting && a.dma.locked == h.locked && !a.dma.regs.en
            && a.dma.regs.enabled == h.regs.enabled && SameAim(h.regs, a.dma.regs)
    ensures var s := Interrupt(AbortIt(h).dma, isr);
            && s.dma.state == Ready && !s.dma.locked && !s.dma.regs.en && Quiet(h, s.dma) && SameAim(h.regs, s.dma.regs)
            && (OnAbort in s.called <==> OnAbort in h.callbacks)
            && Cplt !in s.called && M1Cplt !in s.called && OnError !in s.called
  {
    FaultsNoted(AbortIt(h).dma, isr);
    HalfKeepsTransfer(NoteFaults(AbortIt(h).dma, isr), isr);
  }

  // ---------------------------------------------------------------- polling, initialisation, callbacks

  /** A poll fails on a fault, times out without one, and otherwise says whether it waited for the whole transfer. */
  lemma {:induction false} PollAnswers(h: Dma, full: bool, noted: set<ErrorBit>, expired: bool, stops: bool)
    requires h.state == Transferring && !h.regs.circ
    ensures var a, fault := Poll(h, full, noted, expired, stops), TransferFault in h.errors || TransferFault in noted;
            && a.status == (if fault then Error else if expired then Timeout else Ok)
            && (a.dma.state == Transferring <==> !fault && !expired && !full)
            && (fault || expired || full ==> a.dma.state == Ready && !a.dma.locked)
            && (expired && !fault ==> a.dma.errors == {TimeoutFault})
            && (!expired && !fault ==> a.dma.errors == h.errors + noted)
            && (fault ==> Quiet(h, a.dma) && SameAim(h.regs, a.dma.regs) && a.dma.regs.en == (!stops && h.regs.en))
            && (fault ==> a.dma.errors == if stops then h.errors + noted else {TimeoutFault})
            && (!fault ==> a.dma.regs == h.regs)
            && a.dma.callbacks == h.callbacks
  {
  }

  lemma {:induction false} PollRefuses(h: Dma, full: bool, noted: set<ErrorBit>, expired: bool, stops: bool)
    requires h.state != Transferring || h.regs.circ
    ensures var a := Poll(h, full, noted, expired, stops);
            && a.status == Error
            && a.dma == if h.state != Transferring then h.(errors := {NoTransfer}, locked := false)
                        else h.(errors := {NotSupported})
  {
  }

  /** An initialised stream is disabled, in single-buffer mode with the target bit clear, and its handle is free. */
  lemma {:induction false} InitClears(h: Dma, stops: bool, fifoOk: bool)
    ensures var a := Init(h, stops, fifoOk);
            && !a.dma.locked && a.dma.callbacks == h.callbacks
            && (stops ==> !a.dma.regs.en && !a.dma.regs.dbm && !a.dma.regs.ct && a.dma.regs.circ == h.circularMode
                          && a.dma.state == Ready)
            && (stops ==> a.status == (if fifoOk then Ok else Error) && a.dma.errors == if fifoOk then {} else {BadParam})
            && (!stops ==> a.status == Timeout && a.dma.state == TimedOut && a.dma.errors == {TimeoutFault}
                           && a.dma.regs == h.regs)
  {
  }

  lemma {:induction false} DeInitClears(h: Dma)
    ensures var a := DeInit(h);
            if h.state == Transferring then a == Answer(h, Busy)
            else
              && a.status == Ok && a.dma.state == Reset && !a.dma.locked && a.dma.errors == {} && a.dma.callbacks == {}
              && !a.dma.regs.en && a.dma.regs.enabled == {} && !a.dma.regs.ct && !a.dma.regs.dbm && !a.dma.regs.circ
              && a.dma.regs.ndtr == a.dma.regs.par == a.dma.regs.m0ar == a.dma.regs.m1ar == 0
  {
  }

  /** On a ready, unlocked handle a registered callback is there, an unregistered one is not, and no other changes. */
  lemma {:induction false} RegisteredIsThere(h: Dma, c: Callback, other: Callback)
    requires h.state == Ready && !h.locked
    ensures var a, b, n := Register(h, One(c), true), UnRegister(h, One(c)), Register(h, One(c), false);
            && a.status == b.status == n.status == Ok
            && c in a.dma.callbacks && c !in b.dma.callbacks && c !in n.dma.callbacks
            && (other != c ==>
                  (other in a.dma.callbacks <==> other in h.callbacks)
                  && (other in b.dma.callbacks <==> other in h.callbacks)
                  && (other in n.dma.callbacks <==> other in h.callbacks))
            && a.dma.(callbacks := {}) == b.dma.(callbacks := {}) == n.dma.(callbacks := {}) == h.(callbacks := {})
    ensures UnRegister(h, All) == Answer(h.(callbacks := {}), Ok)
    ensures UnRegister(h, Unknown) == Answer(h, Error)
    ensures Register(h, All, true) == Register(h, Unknown, true) == Answer(h, Ok)
  {
  }

  lemma {:induction false} CallbacksAreKept(h: Dma, id: CallbackId, present: bool)
    requires h.state != Ready || h.locked
    ensures Register(h, id, present) == UnRegister(h, id) == Answer(h, if h.locked then Busy else Error)
  {
  }

  // ---------------------------------------------------------------- interrupts

  /** A flag that is up and whose interrupt is on. */
  predicate Up(h: Dma, isr: set<Flag>, f: Flag) {
    f in isr && f in h.regs.enabled
  }

  /** The transfer's end, noticed while it is being aborted. */
  predicate AbortEnds(h: Dma, isr: set<Flag>) {
    Up(h, isr, TransferComplete) && h.state == Aborting
  }

  predicate AnyError(h: Dma, isr: set<Flag>) {
    h.errors != {} || Up(h, isr, TransferError) || Up(h, isr, FifoError) || Up(h, isr, DirectModeError)
  }

  /**
   * When a callback is due. With two buffers the target bit tells them apart: half of the buffer in use is done, or
   * all of the other one.
   */
  predicate Due(h: Dma, isr: set<Flag>, c: Callback) {
    var complete := Up(h, isr, TransferComplete) && h.state != Aborting;
    match c
    case HalfCplt => Up(h, isr, HalfTransfer) && !(h.regs.dbm && h.regs.ct)
    case M1HalfCplt => Up(h, isr, HalfTransfer) && h.regs.dbm && h.regs.ct
    case Cplt => complete && !(h.regs.dbm && !h.regs.ct)
    case M1Cplt => complete && h.regs.dbm && !h.regs.ct
    case OnAbort => AbortEnds(h, isr)
    case OnError => !AbortEnds(h, isr) && AnyError(h, isr)
  }

  lemma {:induction false} NotedErrors(h: Dma, isr: set<Flag>)
    ensures NoteFaults(h, isr).errors != {} <==> AnyError(h, isr)
  {
    if h.errors != {} {
      var e :| e in h.errors;
      assert e in NoteFaults(h, isr).errors;
    }
    assert Up(h, isr, TransferError) ==> TransferFault in NoteFaults(h, isr).errors;
    assert Up(h, isr, FifoError) ==> FifoFault in NoteFaults(h, isr).errors;
    assert Up(h, isr, DirectModeError) ==> DirectModeFault in NoteFaults(h, isr).errors;
  }

  /** The callback, if it is registered and due. */
  function Listed(h: Dma, isr: set<Flag>, c: Callback): seq<Callback> {
    if c in h.callbacks && Due(h, isr, c) then [c] else []
  }

  /** Same callbacks, same place in the transfer. */
  predicate SameStage(h: Dma, h': Dma, isr: set<Flag>) {
    && h'.callbacks == h.callbacks && h'.state == h.state && SameAim(h.regs, h'.regs)
    && (Up(h', isr, TransferComplete) <==> Up(h, isr, TransferComplete))
  }

  lemma {:induction false} HalfStage(h: Dma, noted: Dma, isr: set<Flag>)
    requires SameStage(h, noted, isr) && (Up(noted, isr, HalfTransfer) <==> Up(h, isr, HalfTransfer))
    ensures WithHalf(noted, isr).called == Listed(h, isr, HalfCplt) + Listed(h, isr, M1HalfCplt)
    ensures SameStage(h, WithHalf(noted, isr).dma, isr) && WithHalf(noted, isr).dma.errors == noted.errors
  {
  }

  lemma {:induction false} CompleteStage(h: Dma, half: Dma, isr: set<Flag>)
    requires SameStage(h, half, isr) && Up(h, isr, TransferComplete) && h.state != Aborting
    ensures Completed(half).called == Listed(h, isr, Cplt) + Listed(h, isr, M1Cplt)
    ensures Completed(half).dma.callbacks == h.callbacks && Completed(half).dma.errors == half.errors
  {
  }

  lemma {:induction false} ErrorStage(h: Dma, last: Dma, isr: set<Flag>)
    requires last.callbacks == h.callbacks && (last.errors != {} <==> AnyError(h, isr)) && !AbortEnds(h, isr)
    ensures Faulty(last).called == Listed(h, isr, OnError) + Listed(h, isr, OnAbort)
  {
  }

  lemma {:induction false} NothingCompleted(h: Dma, isr: set<Flag>)
    requires !Up(h, isr, TransferComplete)
    ensures Listed(h, isr, Cplt) == Listed(h, isr, M1Cplt) == Listed(h, isr, OnAbort) == []
  {
  }

  lemma {:induction false} AbortEnded(h: Dma, isr: set<Flag>)
    requires AbortEnds(h, isr)
    ensures Listed(h, isr, Cplt) == Listed(h, isr, M1Cplt) == Listed(h, isr, OnError) == []
    ensures Listed(h, isr, OnAbort) == if OnAbort in h.callbacks then [OnAbort] else []
  {
  }

  lemma {:induction false} NotedStage(h: Dma, isr: set<Flag>)
    ensures var noted := NoteFaults(h, isr);
            SameStage(h, noted, isr) && (Up(noted, isr, HalfTransfer) <==> Up(h, isr, HalfTransfer))
            && (noted.errors != {} <==> AnyError(h, isr))
  {
    NotedErrors(h, isr);
    FaultsNoted(h, isr);
  }

  /** An interrupt calls exactly the registered callbacks that are due, each once, in this order. */
  lemma {:induction false} InterruptCalls(h: Dma, isr: set<Flag>)
    ensures Interrupt(h, isr).called
            == Listed(h, isr, HalfCplt) + Listed(h, isr, M1HalfCplt) + (Listed(h, isr, Cplt) + Listed(h, isr, M1Cplt))
               + (Listed(h, isr, OnError) + Listed(h, isr, OnAbort))
  {
    var noted := NoteFaults(h, isr);
    NotedStage(h, isr);
    HalfStage(h, noted, isr);
    var half := WithHalf(noted, isr);
    if !Up(h, isr, TransferComplete) {
      NothingCompleted(h, isr);
      ErrorStage(h, half.dma, isr);
    } else if h.state == Aborting {
      AbortEnded(h, isr);
    } else {
      CompleteStage(h, half.dma, isr);
      ErrorStage(h, Completed(half.dma).dma, isr);
    }
  }

  lemma {:induction false} NotedIs(h: Dma, isr: set<Flag>, e: ErrorBit)
    ensures e in NoteFaults(h, isr).errors
            <==> e in h.errors || (e == TransferFault && Up(h, isr, TransferError))
                 || (e == FifoFault && Up(h, isr, FifoError)) || (e == DirectModeFault && Up(h, isr, DirectModeError))
  {
  }

  lemma {:induction false} StagesKeepErrors(h: Dma, isr: set<Flag>)
    ensures WithHalf(h, isr).dma.errors == Completed(h).dma.errors == Faulty(h).dma.errors == h.errors
  {
  }

  lemma {:induction false} ErrorsStay(h: Dma, isr: set<Flag>)
    ensures Interrupt(h, isr).dma.errors == NoteFaults(h, isr).errors
  {
    var half := WithHalf(NoteFaults(h, isr), isr).dma;
    StagesKeepErrors(NoteFaults(h, isr), isr);
    StagesKeepErrors(half, isr);
    StagesKeepErrors(Completed(half).dma, isr);
  }

  /** Faults are recorded, and nothing recorded is forgotten. */
  lemma {:induction false} InterruptRecords(h: Dma, isr: set<Flag>, e: ErrorBit)
    ensures e in Interrupt(h, isr).dma.errors
            <==> e in h.errors || (e == TransferFault && Up(h, isr, TransferError))
                 || (e == FifoFault && Up(h, isr, FifoError)) || (e == DirectModeFault && Up(h, isr, DirectModeError))
  {
    ErrorsStay(h, isr);
    NotedIs(h, isr, e);
  }

  /** A fault stops the stream, unless the interrupt ends an abort. */
  predicate Stopped(h: Dma, isr: set<Flag>) {
    !AbortEnds(h, isr) && (TransferFault in h.errors || Up(h, isr, TransferError))
  }

  /** The end of a transfer through a single buffer that does not start over. */
  predicate LastDone(h: Dma, isr: set<Flag>) {
    Up(h, isr, TransferComplete) && h.state != Aborting && !h.regs.dbm && !h.regs.circ
  }

  /** The handle is freed exactly by the end of a transfer or of an abort and by a fault; a fault disables the stream. */
  lemma {:induction false} InterruptFrees(h: Dma, isr: set<Flag>)
    ensures var now, free := Interrupt(h, isr).dma, AbortEnds(h, isr) || LastDone(h, isr) || Stopped(h, isr);
            && now.state == (if free then Ready else h.state) && now.locked == (!free && h.locked)
            && now.regs.en == (h.regs.en && !Stopped(h, isr))
            && now.callbacks == h.callbacks && SameAim(h.regs, now.regs)
  {
    var noted := NoteFaults(h, isr);
    FaultsNoted(h, isr);
    HalfKeepsTransfer(noted, isr);
  }

  /** An interrupt that has done its work for good is switched off. */
  predicate SwitchesOff(h: Dma, isr: set<Flag>, f: Flag) {
    || (f == TransferError && Up(h, isr, f))
    || (f == HalfTransfer && Up(h, isr, f) && !h.regs.dbm && !h.regs.circ)
    || (f == TransferComplete && LastDone(h, isr))
    || (AbortEnds(h, isr) && (f != HalfTransfer || HalfCplt in h.callbacks || M1HalfCplt in h.callbacks))
  }

  lemma {:induction false} HalfSwitchesOff(h: Dma, isr: set<Flag>, f: Flag)
    ensures f in WithHalf(h, isr).dma.regs.enabled
            <==> f in h.regs.enabled && !(f == HalfTransfer && Up(h, isr, f) && !h.regs.dbm && !h.regs.circ)
  {
  }

  lemma {:induction false} CompletionSwitchesOff(h: Dma, f: Flag)
    ensures f in Completed(h).dma.regs.enabled
            <==> f in h.regs.enabled && !(f == TransferComplete && !h.regs.dbm && !h.regs.circ)
    ensures Faulty(h).dma.regs.enabled == h.regs.enabled
  {
  }

  lemma {:induction false} SilenceSwitchesOff(h: Dma, f: Flag)
    ensures f in Silenced(h.regs, h.callbacks).enabled
            <==> f in h.regs.enabled && f == HalfTransfer && HalfCplt !in h.callbacks && M1HalfCplt !in h.callbacks
  {
  }

  lemma {:induction false} ThreeWays(h: Dma, isr: set<Flag>)
    ensures var half := WithHalf(NoteFaults(h, isr), isr).dma;
            Interrupt(h, isr).dma
            == if !Up(h, isr, TransferComplete) then Faulty(half).dma
               else if h.state == Aborting then Released(half, Silenced(half.regs, half.callbacks))
               else Faulty(Completed(half).dma).dma
  {
    var noted := NoteFaults(h, isr);
    NotedStage(h, isr);
    HalfStage(h, noted, isr);
  }

  lemma {:induction false} HalfIsOn(h: Dma, isr: set<Flag>, f: Flag)
    ensures var half := WithHalf(NoteFaults(h, isr), isr).dma;
            && half.callbacks == h.callbacks && SameAim(h.regs, half.regs)
            && (f in half.regs.enabled
                <==> && f in h.regs.enabled && !(f == TransferError && Up(h, isr, f))
                     && !(f == HalfTransfer && Up(h, isr, f) && !h.regs.dbm && !h.regs.circ))
  {
    var noted := NoteFaults(h, isr);
    NotedStage(h, isr);
    HalfStage(h, noted, isr);
    FaultsNoted(h, isr);
    HalfSwitchesOff(noted, isr, f);
  }

  lemma {:induction false} InterruptSwitchesOff(h: Dma, isr: set<Flag>, f: Flag)
    ensures f in Interrupt(h, isr).dma.regs.enabled <==> f in h.regs.enabled && !SwitchesOff(h, isr, f)
  {
    var half := WithHalf(NoteFaults(h, isr), isr).dma;
    ThreeWays(h, isr);
    HalfIsOn(h, isr, f);
    if !Up(h, isr, TransferComplete) {
      CompletionSwitchesOff(half, f);
    } else if h.state == Aborting {
      SilenceSwitchesOff(half, f);
    } else {
      CompletionSwitchesOff(half, f);
      CompletionSwitchesOff(Completed(half).dma, f);
    }
  }

  /** The faultless completion of a single buffer: the callbacks for half and whole, and a handle that is free. */
  lemma {:induction false} SingleBufferCompletes(h: Dma, isr: set<Flag>)
    requires h.state == Transferring && !h.regs.dbm && h.errors == {}
    requires TransferError !in isr && FifoError !in isr && DirectModeError !in isr
    ensures var half, whole := HalfTransfer in isr && HalfTransfer in h.regs.enabled && HalfCplt in h.callbacks,
                               TransferComplete in isr && TransferComplete in h.regs.enabled && Cplt in h.callbacks;
            Interrupt(h, isr).called == (if half then [HalfCplt] else []) + (if whole then [Cplt] else [])
    ensures TransferComplete in isr && TransferComplete in h.regs.enabled && !h.regs.circ ==>
              Interrupt(h, isr).dma.state == Ready && !Interrupt(h, isr).dma.locked
  {
    assert h.errors + {} + {} + {} == {};
  }
}
