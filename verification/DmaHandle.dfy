/** The DMA stream handle: its state, its lock and the registers a double-buffered transfer uses. */
module DmaHandle {

  datatype HalStatus = Ok | Error | Busy | Timeout

  datatype DmaState = Reset | Ready | Transferring | TimedOut | Aborting

  datatype ErrorBit = TransferFault | FifoFault | DirectModeFault | TimeoutFault | BadParam | NoTransfer | NotSupported

  datatype Direction = PeriphToMemory | MemoryToPeriph | MemoryToMemory

  datatype Callback = Cplt | HalfCplt | M1Cplt | M1HalfCplt | OnError | OnAbort

  /** A callback's number as a caller gives it; any other number is `Unknown`. */
  datatype CallbackId = One(callback: Callback) | All | Unknown

  /** Interrupt flags of a stream, and the enable bits with the same names. */
  datatype Flag = TransferError | FifoError | DirectModeError | HalfTransfer | TransferComplete

  /** The stream's registers. `ct` is set while memory 1 is the target; `circ`, `dbm` and `en` are CR bits. */
  datatype Registers = Registers(
    circ: bool, dbm: bool, ct: bool, en: bool, enabled: set<Flag>,
    ndtr: nat, par: nat, m0ar: nat, m1ar: nat)

  /** The handle; direction and mode are the ones it was configured with. */
  datatype Dma = Dma(
    state: DmaState, locked: bool, errors: set<ErrorBit>, callbacks: set<Callback>,
    direction: Direction, circularMode: bool, regs: Registers)

  /** A handle after a call and the call's status. */
  datatype Answer = Answer(dma: Dma, status: HalStatus)

  /** A handle after (part of) an interrupt and the callbacks called, in order. */
  datatype Served = Served(dma: Dma, called: seq<Callback>)

  /** At call boundaries a transfer holds the lock, and nothing else does but an abort under way. */
  predicate Owned(h: Dma) {
    && (h.state == Transferring ==> h.locked)
    && (h.locked ==> h.state == Transferring || h.state == Aborting)
  }

  // ---------------------------------------------------------------- what each call does

  /** The arguments of a start: source, destination, second memory address (multi-buffer only) and length. */
  datatype Transfer = Transfer(src: nat, dst: nat, second: nat, len: nat)

  function SetConfig(r: Registers, direction: Direction, src: nat, dst: nat, len: nat): Registers {
    if direction == MemoryToPeriph then r.(ndtr := len, par := dst, m0ar := src)
    else r.(ndtr := len, par := src, m0ar := dst)
  }

  const TRANSFER_INTERRUPTS := {TransferComplete, TransferError, DirectModeError}

  /** The half-transfer interrupt, if anybody listens; `multi` counts the listener for memory 1 too. */
  function HalfIf(callbacks: set<Callback>, multi: bool): set<Flag> {
    if HalfCplt in callbacks || (multi && M1HalfCplt in callbacks) then {HalfTransfer} else {}
  }

  predicate CanMultiBuffer(h: Dma) {
    Cplt in h.callbacks && M1Cplt in h.callbacks && OnError in h.callbacks
  }

  function Claimed(h: Dma): Dma {
    h.(state := Transferring, locked := true, errors := {})
  }

  function WithInterrupts(r: Registers, callbacks: set<Callback>, multi: bool): Registers {
    r.(enabled := r.enabled + TRANSFER_INTERRUPTS + (if multi then {FifoError} else {}) + HalfIf(callbacks, multi))
  }

  /** A call under the lock on a handle that is not ready gives the lock back and changes nothing else. */
  function StartWith(h: Dma, regs: Registers): Answer {
    if h.locked || h.state != Ready then Answer(h, Busy) else Answer(Claimed(h).(regs := regs), Ok)
  }

  function Start(h: Dma, t: Transfer): Answer {
    StartWith(h, SetConfig(h.regs.(dbm := false), h.direction, t.src, t.dst, t.len).(en := true))
  }

  function StartIt(h: Dma, t: Transfer): Answer {
    var regs := SetConfig(h.regs.(dbm := false), h.direction, t.src, t.dst, t.len);
    StartWith(h, WithInterrupts(regs, h.callbacks, false).(en := true))
  }

  function MultiBufferStartIt(h: Dma, t: Transfer): Answer {
    if h.direction == MemoryToMemory then Answer(h.(errors := {NotSupported}), Error)
    else if !CanMultiBuffer(h) then Answer(h.(errors := {BadParam}), Error)
    else
      var regs := SetConfig(h.regs.(dbm := true, m1ar := t.second), h.direction, t.src, t.dst, t.len);
      StartWith(h, WithInterrupts(regs, h.callbacks, true).(en := true))
  }

  /** The polling variant: its busy path keeps the lock it took. */
  function MultiBufferStart(h: Dma, t: Transfer): Answer {
    if h.direction == MemoryToMemory then Answer(h.(errors := {NotSupported}), Error)
    else if h.locked then Answer(h, Busy)
    else if h.state != Ready then Answer(h.(locked := true), Busy)
    else
      var regs := SetConfig(h.regs.(dbm := true, m1ar := t.second), h.direction, t.src, t.dst, t.len);
      Answer(h.(state := Transferring, locked := true, regs := regs.(en := true)), Ok)
  }

  function Silenced(r: Registers, callbacks: set<Callback>): Registers {
    r.(enabled := r.enabled - TRANSFER_INTERRUPTS - {FifoError} - HalfIf(callbacks, true))
  }

  function Released(h: Dma, regs: Registers): Dma {
    h.(locked := false, state := Ready, regs := regs)
  }

  /** `stops`: the stream disables itself before the timeout. */
  function Abort(h: Dma, stops: bool): Answer {
    if h.state != Transferring then Answer(h.(errors := {NoTransfer}, locked := false), Error)
    else
      var quiet := Silenced(h.regs, h.callbacks);
      if stops then Answer(Released(h, quiet.(en := false)), Ok)
      else Answer(h.(locked := false, state := TimedOut, errors := {TimeoutFault}, regs := quiet), Timeout)
  }

  function AbortIt(h: Dma): Answer {
    if h.state != Transferring then Answer(h.(errors := {NoTransfer}), Error)
    else Answer(h.(state := Aborting, regs := h.regs.(en := false)), Ok)
  }

  /** `noted`: the faults seen while waiting; `expired`: the timer ran out first. */
  function Poll(h: Dma, full: bool, noted: set<ErrorBit>, expired: bool, stops: bool): Answer {
    if h.state != Transferring then Answer(h.(errors := {NoTransfer}, locked := false), Error)
    else if h.regs.circ then Answer(h.(errors := {NotSupported}), Error)
    else
      var seen := h.(errors := h.errors + noted);
      if TransferFault in seen.errors then Answer(Abort(seen, stops).dma.(locked := false, state := Ready), Error)
      else if expired then Answer(Released(h, h.regs).(errors := {TimeoutFault}), Timeout)
      else if full then Answer(Released(seen, seen.regs), Ok)
      else Answer(seen, Ok)
  }

  /** `fifoOk`: memory burst and FIFO threshold go together. */
  function Init(h: Dma, stops: bool, fifoOk: bool): Answer {
    if !stops then Answer(h.(locked := false, state := TimedOut, errors := {TimeoutFault}), Timeout)
    else
      var h' := Released(h, h.regs.(en := false, circ := h.circularMode, dbm := false, ct := false));
      if fifoOk then Answer(h'.(errors := {}), Ok) else Answer(h'.(errors := {BadParam}), Error)
  }

  function DeInit(h: Dma): Answer {
    if h.state == Transferring then Answer(h, Busy)
    else
      Answer(h.(state := Reset, locked := false, errors := {}, callbacks := {},
                regs := Registers(false, false, false, false, {}, 0, 0, 0, 0)), Ok)
  }

  /** `present`: the pointer is not null. Numbers that name no single callback are passed over. */
  function Register(h: Dma, id: CallbackId, present: bool): Answer {
    if h.locked then Answer(h, Busy)
    else if h.state != Ready then Answer(h, Error)
    else if !id.One? then Answer(h, Ok)
    else Answer(h.(callbacks := if present then h.callbacks + {id.callback} else h.callbacks - {id.callback}), Ok)
  }

  /** Here an unknown number is an error. */
  function UnRegister(h: Dma, id: CallbackId): Answer {
    if h.locked then Answer(h, Busy)
    else if h.state != Ready || id == Unknown then Answer(h, Error)
    else Answer(h.(callbacks := if id == All then {} else h.callbacks - {id.callback}), Ok)
  }

  // ---------------------------------------------------------------- the interrupt

  function Call(h: Dma, c: Callback): seq<Callback> {
    if c in h.callbacks then [c] else []
  }

  predicate Raised(r: Registers, isr: set<Flag>, flag: Flag) {
    flag in isr && flag in r.enabled
  }

  /** The three fault flags; a transfer error also switches its own interrupt off. */
  function NoteFaults(h: Dma, isr: set<Flag>): Dma {
    var transfer, fifo, direct :=
      Raised(h.regs, isr, TransferError), Raised(h.regs, isr, FifoError), Raised(h.regs, isr, DirectModeError);
    h.(errors := h.errors + (if transfer then {TransferFault} else {}) + (if fifo then {FifoFault} else {})
                 + (if direct then {DirectModeFault} else {}),
       regs := if transfer then h.regs.(enabled := h.regs.enabled - {TransferError}) else h.regs)
  }

  function HalfWay(h: Dma): Served {
    if h.regs.dbm then Served(h, Call(h, if h.regs.ct then M1HalfCplt else HalfCplt))
    else
      Served(if h.regs.circ then h else h.(regs := h.regs.(enabled := h.regs.enabled - {HalfTransfer})),
             Call(h, HalfCplt))
  }

  /** With two buffers the target bit, already switched, tells which buffer was completed: the other one. */
  function Completed(h: Dma): Served {
    if h.regs.dbm then Served(h, Call(h, if h.regs.ct then Cplt else M1Cplt))
    else
      Served(if h.regs.circ then h else Released(h, h.regs.(enabled := h.regs.enabled - {TransferComplete})),
             Call(h, Cplt))
  }

  function Faulty(h: Dma): Served {
    if h.errors == {} then Served(h, [])
    else Served(if TransferFault in h.errors then Released(h, h.regs.(en := false)) else h, Call(h, OnError))
  }

  function WithHalf(h: Dma, isr: set<Flag>): Served {
    if Raised(h.regs, isr, HalfTransfer) then HalfWay(h) else Served(h, [])
  }

  /** Callbacks are taken not to touch the handle. */
  function Interrupt(h: Dma, isr: set<Flag>): Served {
    var half := WithHalf(NoteFaults(h, isr), isr);
    if !Raised(half.dma.regs, isr, TransferComplete) then
      var last := Faulty(half.dma);
      Served(last.dma, half.called + last.called)
    else if half.dma.state == Aborting then
      Served(Released(half.dma, Silenced(half.dma.regs, half.dma.callbacks)), half.called + Call(half.dma, OnAbort))
    else
      var done := Completed(half.dma);
      var last := Faulty(done.dma);
      Served(last.dma, half.called + done.called + last.called)
  }

  // ---------------------------------------------------------------- runs of calls

  datatype Request =
    | InitCall(stops: bool, fifoOk: bool)
    | DeInitCall
    | StartCall(t: Transfer)
    | StartItCall(t: Transfer)
    | MultiBufferStartItCall(t: Transfer)
    | AbortCall(stops: bool)
    | AbortItCall
    | PollCall(full: bool, noted: set<ErrorBit>, expired: bool, stops: bool)
    | InterruptCall(isr: set<Flag>)
    | RegisterCall(id: CallbackId, present: bool)
    | UnRegisterCall(id: CallbackId)

  function Serve(h: Dma, r: Request): Answer {
    match r
    case InitCall(stops, fifoOk) => Init(h, stops, fifoOk)
    case DeInitCall => DeInit(h)
    case StartCall(t) => Start(h, t)
    case StartItCall(t) => StartIt(h, t)
    case MultiBufferStartItCall(t) => MultiBufferStartIt(h, t)
    case AbortCall(stops) => Abort(h, stops)
    case AbortItCall => AbortIt(h)
    case PollCall(full, noted, expired, stops) => Poll(h, full, noted, expired, stops)
    case InterruptCall(isr) => Answer(Interrupt(h, isr).dma, Ok)
    case RegisterCall(id, present) => Register(h, id, present)
    case UnRegisterCall(id) => UnRegister(h, id)
  }

  function ServeAll(h: Dma, requests: seq<Request>): Dma {
    if requests == [] then h
    else Serve(ServeAll(h, requests[..|requests| - 1]), requests[|requests| - 1]).dma
  }

  predicate IsStart(r: Request) {
    r.StartCall? || r.StartItCall? || r.MultiBufferStartItCall?
  }

  /** A fault that ends a transfer is recorded or about to be. */
  predicate FaultSeen(h: Dma, isr: set<Flag>) {
    TransferFault in h.errors || Raised(h.regs, isr, TransferError)
  }

  /** What ends a running transfer: initialisation, an abort, the completion of a single buffer, a fault. */
  predicate Ends(h: Dma, r: Request) {
    match r
    case InitCall(_, _) => true
    case AbortCall(_) => true
    case AbortItCall => true
    case PollCall(full, noted, expired, _) => !h.regs.circ && (TransferFault in h.errors + noted || expired || full)
    case InterruptCall(isr) =>
      FaultSeen(h, isr) || (Raised(h.regs, isr, TransferComplete) && !h.regs.dbm && !h.regs.circ)
    case _ => false
  }

  lemma {:induction false} ServeKeepsOwned(h: Dma, r: Request)
    requires Owned(h)
    ensures Owned(Serve(h, r).dma)
  {
    match r {
      case InterruptCall(isr) => InterruptKeepsOwned(h, isr);
      case _ =>
    }
  }

  lemma {:induction false} FaultyKeepsOwned(h: Dma)
    requires Owned(h)
    ensures Owned(Faulty(h).dma)
  {
  }

  lemma {:induction false} CompletedKeepsOwned(h: Dma)
    requires Owned(h)
    ensures Owned(Completed(h).dma)
  {
  }

  lemma {:induction false} InterruptKeepsOwned(h: Dma, isr: set<Flag>)
    requires Owned(h)
    ensures Owned(Interrupt(h, isr).dma)
  {
    var half := WithHalf(NoteFaults(h, isr), isr).dma;
    assert Owned(half);
    FaultyKeepsOwned(half);
    CompletedKeepsOwned(half);
    FaultyKeepsOwned(Completed(half).dma);
  }

  /** Ownership holds at every call boundary of every run. */
  lemma {:induction false} RunKeepsOwned(h: Dma, requests: seq<Request>)
    requires Owned(h)
    ensures Owned(ServeAll(h, requests))
  {
    if requests != [] {
      RunKeepsOwned(h, requests[..|requests| - 1]);
      ServeKeepsOwned(ServeAll(h, requests[..|requests| - 1]), requests[|requests| - 1]);
    }
  }

  /** After any run a start succeeds exactly when the handle is ready, except for what multi-buffer mode demands. */
  lemma {:induction false} StartSucceedsWhenReady(h: Dma, requests: seq<Request>, r: Request)
    requires Owned(h) && IsStart(r)
    ensures var now := ServeAll(h, requests);
            Serve(now, r).status == Ok <==>
              && now.state == Ready
              && (r.MultiBufferStartItCall? ==> now.direction != MemoryToMemory && CanMultiBuffer(now))
  {
    RunKeepsOwned(h, requests);
  }

  /** The same transfer: only recorded errors and enabled interrupts may differ. */
  predicate SameTransfer(h: Dma, h': Dma) {
    h'.(errors := h.errors, regs := h'.regs.(enabled := h.regs.enabled)) == h
  }

  lemma {:induction false} InterruptEndsIff(h: Dma, isr: set<Flag>)
    requires Owned(h) && h.state == Transferring
    ensures Interrupt(h, isr).dma.state == Transferring <==> !Ends(h, InterruptCall(isr))
    ensures !Ends(h, InterruptCall(isr)) ==> SameTransfer(h, Interrupt(h, isr).dma)
  {
    var noted := NoteFaults(h, isr);
    var half := WithHalf(noted, isr).dma;
    FaultsNoted(h, isr);
    HalfKeepsTransfer(noted, isr);
    assert Raised(half.regs, isr, TransferComplete) == Raised(h.regs, isr, TransferComplete);
    assert half.state == Transferring && half.errors == noted.errors;
  }

  lemma {:induction false} FaultsNoted(h: Dma, isr: set<Flag>)
    ensures var noted := NoteFaults(h, isr);
            && SameTransfer(h, noted) && (TransferFault in noted.errors <==> FaultSeen(h, isr))
            && (forall f :: f in noted.regs.enabled <==> f in h.regs.enabled && !(f == TransferError && Raised(h.regs, isr, f)))
  {
  }

  lemma {:induction false} HalfKeepsTransfer(h: Dma, isr: set<Flag>)
    ensures var half := WithHalf(h, isr).dma;
            && SameTransfer(h, half) && half.errors == h.errors
            && (TransferComplete in half.regs.enabled <==> TransferComplete in h.regs.enabled)
  {
  }

  /** A running transfer goes on, untouched, through exactly the calls and interrupts that do not end it. */
  lemma {:induction false} TransferEndsIff(h: Dma, r: Request)
    requires Owned(h) && h.state == Transferring
    ensures Serve(h, r).dma.state == Transferring <==> !Ends(h, r)
    ensures !Ends(h, r) ==> SameTransfer(h, Serve(h, r).dma)
    ensures IsStart(r) ==> Serve(h, r).status != Ok
  {
    match r {
      case InterruptCall(isr) => InterruptEndsIff(h, isr);
      case _ =>
    }
  }

  /** None of the calls of a run ends the transfer it meets. */
  predicate NoneEnds(h: Dma, requests: seq<Request>) {
    if requests == [] then true
    else
      var n := |requests| - 1;
      NoneEnds(h, requests[..n]) && !Ends(ServeAll(h, requests[..n]), requests[n])
  }

  /**
   * While a transfer runs, with interrupts, polls and further requests in any number, nothing starts another one or
   * changes its registers until a call or interrupt that ends it.
   */
  lemma {:induction false} TransferIsExclusive(h: Dma, requests: seq<Request>, r: Request)
    requires Owned(h) && h.state == Transferring && NoneEnds(h, requests)
    ensures var now := ServeAll(h, requests);
            && Owned(now) && now.state == Transferring && SameTransfer(h, now)
            && (IsStart(r) ==> Serve(now, r).status != Ok)
  {
    if requests != [] {
      var n := |requests| - 1;
      TransferIsExclusive(h, requests[..n], r);
      TransferEndsIff(ServeAll(h, requests[..n]), requests[n]);
    }
    RunKeepsOwned(h, requests);
    TransferEndsIff(ServeAll(h, requests), r);
  }

  /** And the first one that does end it leaves no transfer running. */
  lemma {:induction false} TransferRunsUntilEnd(h: Dma, requests: seq<Request>, r: Request)
    requires Owned(h) && h.state == Transferring && NoneEnds(h, requests)
    ensures ServeAll(h, requests + [r]).state == Transferring <==> NoneEnds(h, requests + [r])
  {
    assert (requests + [r])[..|requests|] == requests;
    TransferIsExclusive(h, requests, r);
    TransferEndsIff(ServeAll(h, requests), r);
  }

  /** The polling multi-buffer start breaks ownership exactly when it is refused without the lock being taken. */
  lemma {:induction false} MultiBufferStartKeepsOwnedIff(h: Dma, t: Transfer)
    requires Owned(h)
    ensures Owned(MultiBufferStart(h, t).dma)
            <==> h.direction == MemoryToMemory || h.locked || h.state == Ready || h.state == Aborting
  {
  }
}
