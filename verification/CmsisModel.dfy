/** One instance of the CMSIS driver over its HAL instance: the per-instance context and the net
    effect of every API call, failure paths included. */
module CmsisModel {
  import opened Bits
  import opened BitTiming
  import opened FrameCodec
  import opened HalModel
  import opened RxRing

  datatype Context = Context(
    enabled: bool, initialized: bool, powered: bool, cbUnit: bool, cbObject: bool,
    clk: u32, nominal: u32, data: u32, pct: u8, fdMode: nat, priority: nat, timeoutMs: u32, msgRam: nat,
    /** HAL mode last applied. */
    mode: Mode,
    rx: Ring<Frame>)

  /** index is the instance number, which the event callback carries back. */
  datatype Instance = Instance(index: nat, ctx: Context, hal: Hal)

  datatype PowerState = PowerOff | PowerLow | PowerFull | PowerOther
  datatype ArmMode = Initialization | Normal | Restricted | Monitor | LoopbackInternal | LoopbackExternal
  datatype BitrateSelect = Nominal | FdData | OtherSelect
  datatype Control = SetFdMode | AbortMessageSend | OtherControl

  /** What the module answers to the requests of one call: into Configuration mode, out of it, and
      into it again if the call rolls back. */
  datatype Replies = Replies(enter: Reply, leave: Reply, rollback: Reply)

  function ToArm(st: Status): int {
    match st
    case Ok => ARM_DRIVER_OK
    case InvalidArg => ARM_DRIVER_ERROR_PARAMETER
    case Timeout => ARM_DRIVER_ERROR_TIMEOUT
    case _ => ARM_DRIVER_ERROR
  }

  function NormalMode(fdMode: nat): Mode {
    if fdMode != 0 then NormalFd else NormalClassic
  }

  function HalModeOf(mode: ArmMode, fdMode: nat): Option<Mode> {
    match mode
    case Normal => Some(NormalMode(fdMode))
    case Monitor => Some(ListenOnly)
    case LoopbackInternal => Some(InternalLoopback)
    case LoopbackExternal => Some(ExternalLoopback)
    case _ => None
  }

  function ConfigOf(ctx: Context, mode: Mode): Config {
    Config(ctx.clk, ctx.nominal, ctx.data, ctx.pct, ctx.fdMode != 0, mode, ctx.timeoutMs,
           Some(ctx.msgRam), MSG_RAM_BYTES)
  }

  // ------------------------------------------------------------------------------------
  // Calls
  // ------------------------------------------------------------------------------------

  /** The HAL with its events quiesced: every source and line off, no callback. */
  function Quiesced(h: Hal): Hal {
    AfterSetCallback(AfterDisable(h).0, NoCallback)
  }

  /** can_apply_init: quiesce, init, register, enable; a refused enable takes the node down again. */
  function AfterApply(x: Instance, mode: Mode, r: Replies): (Instance, int) {
    var (h, st) := AfterInit(Quiesced(x.hal), ConfigOf(x.ctx, mode), r.enter, r.leave);
    if st != Ok then (x.(hal := h), ToArm(st))
    else
      var (e, st2) := AfterEnable(AfterSetCallback(h, CanHalEvent(x.index)), x.ctx.priority);
      if st2 != Ok then (x.(hal := AfterDeinit(h, r.rollback).0), ToArm(st2))
      else (x.(hal := e, ctx := x.ctx.(mode := mode)), ARM_DRIVER_OK)
  }

  function AfterInitialize(x: Instance, cbUnit: bool, cbObject: bool): (Instance, int) {
    if !x.ctx.enabled then (x, ARM_DRIVER_ERROR_UNSUPPORTED)
    else
      (x.(ctx := x.ctx.(cbUnit := cbUnit, cbObject := cbObject, powered := false, initialized := true)), ARM_DRIVER_OK)
  }

  function WithEmptyRing(x: Instance): Instance {
    x.(ctx := x.ctx.(rx := x.ctx.rx.(head := 0, tail := 0)))
  }

  function AfterPower(x: Instance, state: PowerState, r: Replies): (Instance, int) {
    if !x.ctx.initialized then (x, ARM_DRIVER_ERROR)
    else
      match state
      case PowerFull =>
        if x.ctx.powered then (x, ARM_DRIVER_OK)
        else
          var (y, rc) := AfterApply(WithEmptyRing(x), NormalMode(x.ctx.fdMode), r);
          if rc != ARM_DRIVER_OK then (y, rc) else (y.(ctx := y.ctx.(powered := true)), ARM_DRIVER_OK)
      case PowerOff =>
        var h := if x.ctx.powered then AfterDeinit(Quiesced(x.hal), r.enter).0 else x.hal;
        (x.(hal := h, ctx := x.ctx.(powered := false)), ARM_DRIVER_OK)
      case PowerLow => (x, ARM_DRIVER_ERROR_UNSUPPORTED)
      case PowerOther => (x, ARM_DRIVER_ERROR_PARAMETER)
  }

  function AfterUninitialize(x: Instance, r: Replies): (Instance, int) {
    var y := if x.ctx.powered then AfterPower(x, PowerOff, r).0 else x;
    (y.(ctx := y.ctx.(cbUnit := false, cbObject := false, initialized := false)), ARM_DRIVER_OK)
  }

  /** The three segment fields of a bit_segments word. */
  datatype Segments = Segments(prop: u8, ph1: u8, ph2: u8)

  function SegmentsOf(word: u32): Segments {
    Segments(word % 0x100, (word / 0x100) % 0x100, (word / 0x1_0000) % 0x100)
  }

  function PctFrom(pct: u8, word: u32): u8 {
    var s := SegmentsOf(word);
    if word != 0 && s.ph2 != 0 then PercentOf(s.prop, s.ph1, s.ph2) else pct
  }

  /** The cached values change before anything can fail, except for a zero rate. */
  function AfterCmsisBitrate(x: Instance, select: BitrateSelect, rate: u32, segments: u32, r: Replies)
    : (Instance, int)
  {
    if rate == 0 then (x, ARM_DRIVER_ERROR_PARAMETER)
    else
      var ctx := x.ctx.(pct := PctFrom(x.ctx.pct, segments));
      match select
      case OtherSelect => (x.(ctx := ctx), ARM_DRIVER_ERROR_PARAMETER)
      case _ =>
        var c := if select == Nominal then ctx.(nominal := rate) else ctx.(data := rate);
        if !c.powered then (x.(ctx := c), ARM_DRIVER_OK)
        else
          var (h, st) := AfterSetBitrate(x.hal, c.clk, c.nominal, c.data, c.pct, r.enter, r.leave);
          (x.(ctx := c, hal := h), ToArm(st))
  }

  function AfterSetMode(x: Instance, mode: ArmMode, r: Replies): (Instance, int) {
    if !x.ctx.initialized then (x, ARM_DRIVER_ERROR)
    else if mode == Initialization then (x, ARM_DRIVER_OK)
    else
      match HalModeOf(mode, x.ctx.fdMode)
      case None => (x, ARM_DRIVER_ERROR_UNSUPPORTED)
      case Some(m) =>
        if !x.ctx.powered then (x, ARM_DRIVER_ERROR)
        else if m == x.ctx.mode then (x, ARM_DRIVER_OK)
        else AfterApply(x, m, r)
  }

  function AfterControl(x: Instance, control: Control, arg: nat, r: Replies): (Instance, int) {
    if !x.ctx.initialized then (x, ARM_DRIVER_ERROR)
    else
      match control
      case SetFdMode =>
        if arg > 1 then (x, ARM_DRIVER_ERROR_PARAMETER)
        else
          var y := x.(ctx := x.ctx.(fdMode := arg));
          if !x.ctx.powered then (y, ARM_DRIVER_OK)
          else if x.ctx.mode == NormalFd || x.ctx.mode == NormalClassic then AfterApply(y, NormalMode(arg), r)
          else AfterApply(y, x.ctx.mode, r)
      case AbortMessageSend =>
        if !x.ctx.powered then (x, ARM_DRIVER_ERROR)
        else if arg != CAN_OBJ_TX then (x, ARM_DRIVER_ERROR_PARAMETER)
        else
          var (h, st) := AfterTxAbort(x.hal);
          (x.(hal := h), ToArm(st))
      case OtherControl => (x, ARM_DRIVER_ERROR_UNSUPPORTED)
  }

  /** The checks of CAN_MessageSend before the HAL is called; data is the caller's buffer, or None
      for a null pointer. */
  function SendRefusal(ctx: Context, objIdx: nat, info: Option<MsgInfo>, data: Option<seq<u8>>, size: u8): int {
    if !ctx.powered then ARM_DRIVER_ERROR
    else if info.None? || objIdx != CAN_OBJ_TX || size > 64 || (size > 0 && data.None?) then ARM_DRIVER_ERROR_PARAMETER
    else if info.value.rtr then ARM_DRIVER_ERROR_UNSUPPORTED
    else if ctx.fdMode == 0 && (info.value.edl || size > 8) then ARM_DRIVER_ERROR_UNSUPPORTED
    else ARM_DRIVER_OK
  }

  function SentBytes(data: Option<seq<u8>>, size: u8): seq<u8> {
    if data.Some? && size <= |data.value| then data.value[..size] else []
  }

  /** The buffer behind the payload is uninitialized; its content is stale. */
  function AfterSend(x: Instance, objIdx: nat, info: Option<MsgInfo>, data: Option<seq<u8>>, size: u8,
        stale: Payload, room: Reply)
    : (Instance, int)
    requires data.Some? ==> size <= |data.value|
  {
    var rc := SendRefusal(x.ctx, objIdx, info, data, size);
    if rc != ARM_DRIVER_OK then (x, rc)
    else
      var (h, st) := AfterTransmit(x.hal, SendFrame(info.value, SentBytes(data, size), stale), room);
      (x.(hal := h), if st != Ok then ToArm(st) else size)
  }

  /** An interrupt can reach this instance's own ring. */
  predicate Live(x: Instance) {
    x.hal.events.enabled && x.hal.events.cb == CanHalEvent(x.index) && x.hal.node.initialized
  }

  /** A handler run that finds these frames in the hardware FIFO. */
  function AfterReceived(x: Instance, frames: seq<Frame>): Instance
    requires x.ctx.rx.Valid()
  {
    if Live(x) then x.(ctx := x.ctx.(rx := x.ctx.rx.PushAll(frames))) else x
  }

  /** CAN_MessageRead: the oldest frame leaves the ring; rc is the number of bytes returned. */
  function AfterRead(x: Instance, objIdx: nat, infoGiven: bool, bufferGiven: bool, size: u8): (Instance, int)
    requires x.ctx.rx.Valid()
  {
    if !x.ctx.powered then (x, ARM_DRIVER_ERROR)
    else if !infoGiven || objIdx != CAN_OBJ_RX || (size > 0 && !bufferGiven) then (x, ARM_DRIVER_ERROR_PARAMETER)
    else if x.ctx.rx.Empty() then (x, ARM_DRIVER_ERROR)
    else
      var frame := x.ctx.rx.slots[x.ctx.rx.tail];
      (x.(ctx := x.ctx.(rx := x.ctx.rx.Pop())), if frame.len < size then frame.len else size)
  }

  // ------------------------------------------------------------------------------------
  // All runs of API calls
  // ------------------------------------------------------------------------------------

  datatype Call =
    | Initialize(cbUnit: bool, cbObject: bool)
    | Uninitialize(r: Replies)
    | PowerControl(state: PowerState, r: Replies)
    | Bitrate(select: BitrateSelect, rate: u32, segments: u32, r: Replies)
    | ChangeMode(mode: ArmMode, r: Replies)
    | ControlCall(control: Control, arg: nat, r: Replies)
    | MessageSend(objIdx: nat, info: Option<MsgInfo>, data: Option<seq<u8>>, size: u8, stale: Payload, room: Reply)
    | MessageRead(objIdx: nat, infoGiven: bool, bufferGiven: bool, size: u8)
    /** The handler's two parts, and the hardware's own steps. */
    | Received(frames: seq<Frame>)
    | Interrupt(txif: bool, queueEmpty: bool)
    | LateAnswer
    | OnTheBus(words: seq<u32>)

  predicate CallOk(c: Call) {
    c.MessageSend? && c.data.Some? ==> c.size <= |c.data.value|
  }

  function After(x: Instance, c: Call): (Instance, int)
    requires CallOk(c) && x.ctx.rx.Valid()
  {
    match c
    case Initialize(u, o) => AfterInitialize(x, u, o)
    case Uninitialize(r) => AfterUninitialize(x, r)
    case PowerControl(state, r) => AfterPower(x, state, r)
    case Bitrate(select, rate, segments, r) => AfterCmsisBitrate(x, select, rate, segments, r)
    case ChangeMode(mode, r) => AfterSetMode(x, mode, r)
    case ControlCall(control, arg, r) => AfterControl(x, control, arg, r)
    case MessageSend(objIdx, info, data, size, stale, room) => AfterSend(x, objIdx, info, data, size, stale, room)
    case MessageRead(objIdx, infoGiven, bufferGiven, size) => AfterRead(x, objIdx, infoGiven, bufferGiven, size)
    case Received(frames) => (AfterReceived(x, frames), ARM_DRIVER_OK)
    case Interrupt(txif, empty) => (x.(hal := AfterTxInterrupt(x.hal, txif, empty).0), ARM_DRIVER_OK)
    case LateAnswer => (x.(hal := HalNext(x.hal, Settle).0), ARM_DRIVER_OK)
    case OnTheBus(words) => (x.(hal := HalNext(x.hal, Send(words)).0), ARM_DRIVER_OK)
  }

  /** Either this instance's callback is registered, the events are enabled and the node runs in
      the mode the context records; or there is no callback and the events are off. */
  predicate LayersAgree(x: Instance) {
    || (x.hal.events.cb == CanHalEvent(x.index) && x.hal.events.enabled && x.hal.mode == x.ctx.mode)
    || (x.hal.events.cb == NoCallback && !x.hal.events.enabled)
  }

  predicate FlagsNest(ctx: Context) {
    (ctx.powered ==> ctx.initialized) && (ctx.initialized ==> ctx.enabled)
  }

  /** A live instance in a normal mode is in the one the FD setting selects. */
  predicate FdConsistent(x: Instance) {
    x.ctx.powered && x.hal.events.enabled && (x.ctx.mode == NormalFd || x.ctx.mode == NormalClassic) ==>
      x.ctx.mode == NormalMode(x.ctx.fdMode)
  }

  /** While the event layer is on, a received frame or an overflow interrupts: every enable on its
      way is set, the module is on, and the filter, both geometries and the message RAM are the
      driver's. */
  predicate Listening(h: Hal, msgRam: nat) {
    h.events.enabled ==>
      && h.regs.rxNotEmptyIe && h.regs.rxOverflowIe && h.events.ints.rx && h.events.ints.rxov
      && 1 <= h.events.priority <= 7
      && h.regs.con.on && h.regs.con.txqen && h.regs.filter == ACCEPT_ALL
      && h.regs.txq == h.regs.rx == GEOMETRY && h.regs.fifoba == msgRam
  }

  /** On a live instance the module switches bit rates exactly when FD is selected. */
  predicate RatesConsistent(x: Instance) {
    x.ctx.powered && x.hal.events.enabled ==> (x.hal.regs.con.brsdis <==> x.ctx.fdMode == 0)
  }

  ghost predicate Inv(x: Instance) {
    && LayersAgree(x) && FlagsNest(x.ctx) && FdConsistent(x) && x.ctx.mode != NoMode
    && Listening(x.hal, x.ctx.msgRam) && RatesConsistent(x) && x.ctx.rx.Valid()
    && NodeInv(x.hal) && EventInv(x.hal, false)
  }

  lemma ApplyKeeps(x: Instance, mode: Mode, r: Replies)
    requires LayersAgree(x) && NodeInv(x.hal) && EventInv(x.hal, false) && mode != NoMode
    ensures var (y, rc) := AfterApply(x, mode, r);
            && NodeInv(y.hal) && EventInv(y.hal, false) && LayersAgree(y)
            && y.ctx == (if rc == ARM_DRIVER_OK then x.ctx.(mode := mode) else x.ctx)
            && (rc == ARM_DRIVER_OK <==> y.hal.events.enabled)
            && Listening(y.hal, y.ctx.msgRam)
            && (rc == ARM_DRIVER_OK ==> (y.hal.regs.con.brsdis <==> x.ctx.fdMode == 0))
  {
    InitKeeps(Quiesced(x.hal), ConfigOf(x.ctx, mode), r.enter, r.leave);
    var (h, st) := AfterInit(Quiesced(x.hal), ConfigOf(x.ctx, mode), r.enter, r.leave);
    InitOutcome(Quiesced(x.hal), ConfigOf(x.ctx, mode), r.enter, r.leave);
    assert h.events == Quiesced(x.hal).events;
  }

  /** A HAL call or hardware step that leaves alone what the layers agree on. */
  predicate SameSetup(h: Hal, t: Hal) {
    && t.events == h.events && t.mode == h.mode && t.present == h.present
    && t.regs.rxNotEmptyIe == h.regs.rxNotEmptyIe && t.regs.rxOverflowIe == h.regs.rxOverflowIe
    && t.regs.filter == h.regs.filter && t.regs.fifoba == h.regs.fifoba
    && t.regs.txq == h.regs.txq && t.regs.rx == h.regs.rx
    && t.regs.con.on == h.regs.con.on && t.regs.con.txqen == h.regs.con.txqen && t.regs.con.brsdis == h.regs.con.brsdis
  }

  lemma HalChangeKeeps(x: Instance, t: Hal)
    requires Inv(x) && NodeInv(t) && SameSetup(x.hal, t)
    ensures Inv(x.(hal := t))
  {}

  lemma SendKeeps(x: Instance, objIdx: nat, info: Option<MsgInfo>, data: Option<seq<u8>>, size: u8,
        stale: Payload, room: Reply)
    requires Inv(x) && (data.Some? ==> size <= |data.value|)
    ensures Inv(AfterSend(x, objIdx, info, data, size, stale, room).0)
  {
    if SendRefusal(x.ctx, objIdx, info, data, size) == ARM_DRIVER_OK {
      var f := SendFrame(info.value, SentBytes(data, size), stale);
      TransmitKeeps(x.hal, f, room);
      HalChangeKeeps(x, AfterTransmit(x.hal, f, room).0);
    }
  }

  lemma PowerKeeps(x: Instance, state: PowerState, r: Replies)
    requires Inv(x)
    ensures Inv(AfterPower(x, state, r).0)
  {
    if x.ctx.initialized && !x.ctx.powered && state == PowerFull {
      ApplyKeeps(WithEmptyRing(x), NormalMode(x.ctx.fdMode), r);
    }
  }

  lemma ControlKeeps(x: Instance, control: Control, arg: nat, r: Replies)
    requires Inv(x)
    ensures Inv(AfterControl(x, control, arg, r).0)
  {
    if x.ctx.powered && control == SetFdMode && arg <= 1 {
      var y := x.(ctx := x.ctx.(fdMode := arg));
      if x.ctx.mode == NormalFd || x.ctx.mode == NormalClassic {
        ApplyKeeps(y, NormalMode(arg), r);
      } else {
        ApplyKeeps(y, x.ctx.mode, r);
      }
    }
  }

  lemma ModeKeeps(x: Instance, mode: ArmMode, r: Replies)
    requires Inv(x)
    ensures Inv(AfterSetMode(x, mode, r).0)
  {
    var m := HalModeOf(mode, x.ctx.fdMode);
    if m.Some? {
      ApplyKeeps(x, m.value, r);
    }
  }

  lemma BitrateKeeps(x: Instance, select: BitrateSelect, rate: u32, segments: u32, r: Replies)
    requires Inv(x)
    ensures Inv(AfterCmsisBitrate(x, select, rate, segments, r).0)
  {
    if select != OtherSelect {
      var c := x.ctx.(pct := PctFrom(x.ctx.pct, segments));
      var d := if select == Nominal then c.(nominal := rate) else c.(data := rate);
      SetBitrateKeeps(x.hal, d.clk, d.nominal, d.data, d.pct, r.enter, r.leave);
      SetBitrateOutcome(x.hal, d.clk, d.nominal, d.data, d.pct, r.enter, r.leave);
    }
  }

  lemma ReceiveKeeps(x: Instance, c: Call)
    requires Inv(x) && (c.MessageRead? || c.Received?)
    ensures Inv(After(x, c).0)
  {
    var y := After(x, c).0;
    assert y == x.(ctx := x.ctx.(rx := y.ctx.rx));
  }

  lemma HardwareTouches(h: Hal, op: HalOp)
    requires EventInv(h, false) && (op.Settle? || op.Send? || op.TxInterrupt?)
    ensures SameSetup(h, HalNext(h, op).0)
  {}

  lemma HardwareStepKeeps(x: Instance, op: HalOp)
    requires Inv(x) && (op.Settle? || op.Send? || op.TxInterrupt?)
    ensures Inv(x.(hal := HalNext(x.hal, op).0))
  {
    HardwareTouches(x.hal, op);
    NodeStep(x.hal, op);
    HalChangeKeeps(x, HalNext(x.hal, op).0);
  }

  lemma HardwareCallKeeps(x: Instance, c: Call)
    requires Inv(x) && (c.Interrupt? || c.LateAnswer? || c.OnTheBus?)
    ensures Inv(After(x, c).0) && After(x, c).0.index == x.index
  {
    if c.Interrupt? {
      HardwareStepKeeps(x, TxInterrupt(c.txif, c.queueEmpty));
    } else if c.LateAnswer? {
      HardwareStepKeeps(x, Settle);
    } else {
      HardwareStepKeeps(x, Send(c.words));
    }
  }

  lemma SetupKeeps(x: Instance, c: Call)
    requires Inv(x) && (c.Initialize? || c.Uninitialize? || c.PowerControl?)
    ensures Inv(After(x, c).0) && After(x, c).0.index == x.index
  {
    if c.PowerControl? {
      PowerKeeps(x, c.state, c.r);
    } else if c.Uninitialize? {
      PowerKeeps(x, PowerOff, c.r);
    }
  }

  lemma ChangeKeeps(x: Instance, c: Call)
    requires Inv(x) && (c.ChangeMode? || c.ControlCall?)
    ensures Inv(After(x, c).0) && After(x, c).0.index == x.index
  {
    if c.ChangeMode? {
      ModeKeeps(x, c.mode, c.r);
    } else {
      ControlKeeps(x, c.control, c.arg, c.r);
    }
  }

  lemma AfterKeeps(x: Instance, c: Call)
    requires Inv(x) && CallOk(c)
    ensures Inv(After(x, c).0) && After(x, c).0.index == x.index
  {
    match c
    case Initialize(_, _) => SetupKeeps(x, c);
    case Uninitialize(_) => SetupKeeps(x, c);
    case PowerControl(_, _) => SetupKeeps(x, c);
    case ChangeMode(_, _) => ChangeKeeps(x, c);
    case ControlCall(_, _, _) => ChangeKeeps(x, c);
    case Bitrate(select, rate, segments, r) => BitrateKeeps(x, select, rate, segments, r);
    case MessageSend(objIdx, info, data, size, stale, room) => SendKeeps(x, objIdx, info, data, size, stale, room);
    case MessageRead(_, _, _, _) => ReceiveKeeps(x, c);
    case Received(_) => ReceiveKeeps(x, c);
    case _ => HardwareCallKeeps(x, c);
  }

  ghost function Runs(x: Instance, calls: seq<Call>): Instance
    requires Inv(x) && forall c | c in calls :: CallOk(c)
    decreases |calls|
  {
    if calls == [] then x
    else
      AfterKeeps(x, calls[0]);
      Runs(After(x, calls[0]).0, calls[1..])
  }

  // ------------------------------------------------------------------------------------
  // Every run of the API is a run of the HAL
  // ------------------------------------------------------------------------------------

  /** The HAL calls can_apply_init makes, in order. */
  function ApplyOps(x: Instance, mode: Mode, r: Replies): seq<HalOp> {
    QuietOps() + ([Init(ConfigOf(x.ctx, mode), r.enter, r.leave)] + LiveOps(x, mode, r))
  }

  function QuietOps(): seq<HalOp> {
    [IsrDisable] + [SetCallback(NoCallback)]
  }

  function LiveOps(x: Instance, mode: Mode, r: Replies): seq<HalOp> {
    var (h, st) := AfterInit(Quiesced(x.hal), ConfigOf(x.ctx, mode), r.enter, r.leave);
    if st != Ok then []
    else
      [SetCallback(CanHalEvent(x.index))]
      + ([IsrEnable(x.ctx.priority)]
         + if AfterEnable(AfterSetCallback(h, CanHalEvent(x.index)), x.ctx.priority).1 == Ok then []
           else [SetCallback(NoCallback)] + [Deinit(r.rollback)])
  }

  function PowerOps(x: Instance, state: PowerState, r: Replies): seq<HalOp> {
    if !x.ctx.initialized then []
    else
      match state
      case PowerFull => if x.ctx.powered then [] else ApplyOps(WithEmptyRing(x), NormalMode(x.ctx.fdMode), r)
      case PowerOff => if x.ctx.powered then QuietOps() + [Deinit(r.enter)] else []
      case _ => []
  }

  function BitrateOps(x: Instance, select: BitrateSelect, rate: u32, segments: u32, r: Replies): seq<HalOp> {
    if rate == 0 || select == OtherSelect || !x.ctx.powered then []
    else
      var c := AfterCmsisBitrate(x, select, rate, segments, r).0.ctx;
      [SetBitrate(c.clk, c.nominal, c.data, c.pct, r.enter, r.leave)]
  }

  function ModeOps(x: Instance, mode: ArmMode, r: Replies): seq<HalOp> {
    var m := HalModeOf(mode, x.ctx.fdMode);
    if !x.ctx.initialized || mode == Initialization || m.None? || !x.ctx.powered || m.value == x.ctx.mode then []
    else ApplyOps(x, m.value, r)
  }

  function ControlOps(x: Instance, control: Control, arg: nat, r: Replies): seq<HalOp> {
    if !x.ctx.initialized || !x.ctx.powered then []
    else if control == SetFdMode && arg <= 1 then
      var mode := if x.ctx.mode == NormalFd || x.ctx.mode == NormalClassic then NormalMode(arg) else x.ctx.mode;
      ApplyOps(x.(ctx := x.ctx.(fdMode := arg)), mode, r)
    else if control == AbortMessageSend && arg == CAN_OBJ_TX then [TxAbort]
    else []
  }

  /** The HAL calls of one API call or hardware step. */
  function Ops(x: Instance, c: Call): seq<HalOp>
    requires CallOk(c)
  {
    match c
    case Initialize(_, _) => []
    case Uninitialize(r) => if x.ctx.powered then PowerOps(x, PowerOff, r) else []
    case PowerControl(state, r) => PowerOps(x, state, r)
    case Bitrate(select, rate, segments, r) => BitrateOps(x, select, rate, segments, r)
    case ChangeMode(mode, r) => ModeOps(x, mode, r)
    case ControlCall(control, arg, r) => ControlOps(x, control, arg, r)
    case MessageSend(objIdx, info, data, size, stale, room) =>
      if SendRefusal(x.ctx, objIdx, info, data, size) != ARM_DRIVER_OK then []
      else [Transmit(SendFrame(info.value, SentBytes(data, size), stale), room)]
    case MessageRead(_, _, _, _) => []
    case Received(_) => []
    case Interrupt(txif, queueEmpty) => [TxInterrupt(txif, queueEmpty)]
    case LateAnswer => [Settle]
    case OnTheBus(words) => [Send(words)]
  }

  lemma QuietIsRun(h: Hal, rest: seq<HalOp>)
    ensures HalRun(h, QuietOps() + rest) == HalRun(Quiesced(h), rest)
  {
    assert QuietOps() + rest == [IsrDisable] + ([SetCallback(NoCallback)] + rest);
    RunCons(h, IsrDisable, [SetCallback(NoCallback)] + rest);
    RunCons(AfterDisable(h).0, SetCallback(NoCallback), rest);
  }

  lemma LiveIsRun(x: Instance, mode: Mode, r: Replies)
    ensures HalRun(AfterInit(Quiesced(x.hal), ConfigOf(x.ctx, mode), r.enter, r.leave).0, LiveOps(x, mode, r))
            == AfterApply(x, mode, r).0.hal
  {
    var (h, st) := AfterInit(Quiesced(x.hal), ConfigOf(x.ctx, mode), r.enter, r.leave);
    InitOutcome(Quiesced(x.hal), ConfigOf(x.ctx, mode), r.enter, r.leave);
    if st == Ok {
      var registered := AfterSetCallback(h, CanHalEvent(x.index));
      var (e, st2) := AfterEnable(registered, x.ctx.priority);
      var tail := if st2 == Ok then [] else [SetCallback(NoCallback)] + [Deinit(r.rollback)];
      RunCons(h, SetCallback(CanHalEvent(x.index)), [IsrEnable(x.ctx.priority)] + tail);
      RunCons(registered, IsrEnable(x.ctx.priority), tail);
      if st2 != Ok {
        assert e == registered && AfterSetCallback(e, NoCallback) == h;
        RunCons(e, SetCallback(NoCallback), [Deinit(r.rollback)]);
        RunOne(h, Deinit(r.rollback));
      }
    }
  }

  lemma ApplyIsRun(x: Instance, mode: Mode, r: Replies)
    ensures HalRun(x.hal, ApplyOps(x, mode, r)) == AfterApply(x, mode, r).0.hal
  {
    var op := Init(ConfigOf(x.ctx, mode), r.enter, r.leave);
    QuietIsRun(x.hal, [op] + LiveOps(x, mode, r));
    RunCons(Quiesced(x.hal), op, LiveOps(x, mode, r));
    LiveIsRun(x, mode, r);
  }

  lemma PowerIsRun(x: Instance, state: PowerState, r: Replies)
    ensures HalRun(x.hal, PowerOps(x, state, r)) == AfterPower(x, state, r).0.hal
  {
    if x.ctx.initialized && state == PowerFull && !x.ctx.powered {
      ApplyIsRun(WithEmptyRing(x), NormalMode(x.ctx.fdMode), r);
    } else if x.ctx.initialized && state == PowerOff && x.ctx.powered {
      QuietIsRun(x.hal, [Deinit(r.enter)]);
      RunOne(Quiesced(x.hal), Deinit(r.enter));
    }
  }

  lemma ModeIsRun(x: Instance, mode: ArmMode, r: Replies)
    ensures HalRun(x.hal, ModeOps(x, mode, r)) == AfterSetMode(x, mode, r).0.hal
  {
    var m := HalModeOf(mode, x.ctx.fdMode);
    if m.Some? {
      ApplyIsRun(x, m.value, r);
    }
  }

  lemma ControlIsRun(x: Instance, control: Control, arg: nat, r: Replies)
    ensures HalRun(x.hal, ControlOps(x, control, arg, r)) == AfterControl(x, control, arg, r).0.hal
  {
    RunOne(x.hal, TxAbort);
    if control == SetFdMode && arg <= 1 {
      var mode := if x.ctx.mode == NormalFd || x.ctx.mode == NormalClassic then NormalMode(arg) else x.ctx.mode;
      ApplyIsRun(x.(ctx := x.ctx.(fdMode := arg)), mode, r);
    }
  }

  lemma BitrateIsRun(x: Instance, select: BitrateSelect, rate: u32, segments: u32, r: Replies)
    ensures HalRun(x.hal, BitrateOps(x, select, rate, segments, r))
            == AfterCmsisBitrate(x, select, rate, segments, r).0.hal
  {
    var c := AfterCmsisBitrate(x, select, rate, segments, r).0.ctx;
    RunOne(x.hal, SetBitrate(c.clk, c.nominal, c.data, c.pct, r.enter, r.leave));
  }

  /** Every API call does to the HAL what its HAL calls do. */
  lemma CallIsRun(x: Instance, c: Call)
    requires CallOk(c) && x.ctx.rx.Valid()
    ensures After(x, c).0.hal == HalRun(x.hal, Ops(x, c))
  {
    match c
    case Uninitialize(r) => PowerIsRun(x, PowerOff, r);
    case PowerControl(state, r) => PowerIsRun(x, state, r);
    case Bitrate(select, rate, segments, r) => BitrateIsRun(x, select, rate, segments, r);
    case ChangeMode(mode, r) => ModeIsRun(x, mode, r);
    case ControlCall(control, arg, r) => ControlIsRun(x, control, arg, r);
    case MessageSend(objIdx, info, data, size, stale, room) =>
      if SendRefusal(x.ctx, objIdx, info, data, size) == ARM_DRIVER_OK {
        RunOne(x.hal, Transmit(SendFrame(info.value, SentBytes(data, size), stale), room));
      }
    case Interrupt(txif, queueEmpty) => RunOne(x.hal, TxInterrupt(txif, queueEmpty));
    case LateAnswer => RunOne(x.hal, Settle);
    case OnTheBus(words) => RunOne(x.hal, Send(words));
    case _ =>
  }

  /** The HAL calls of a run. */
  ghost function AllOps(x: Instance, calls: seq<Call>): seq<HalOp>
    requires Inv(x) && forall c | c in calls :: CallOk(c)
    decreases |calls|
  {
    if calls == [] then []
    else
      AfterKeeps(x, calls[0]);
      Ops(x, calls[0]) + AllOps(After(x, calls[0]).0, calls[1..])
  }

  lemma {:induction false} RunsAreHalRuns(x: Instance, calls: seq<Call>)
    requires Inv(x) && forall c | c in calls :: CallOk(c)
    ensures Runs(x, calls).hal == HalRun(x.hal, AllOps(x, calls))
    decreases |calls|
  {
    if calls != [] {
      var y := After(x, calls[0]).0;
      AfterKeeps(x, calls[0]);
      CallIsRun(x, calls[0]);
      RunsAreHalRuns(y, calls[1..]);
      HalRunAppend(x.hal, Ops(x, calls[0]), AllOps(y, calls[1..]));
    }
  }

  lemma {:induction false} RunsKeep(x: Instance, calls: seq<Call>)
    requires Inv(x) && forall c | c in calls :: CallOk(c)
    ensures Inv(Runs(x, calls)) && Runs(x, calls).index == x.index
    decreases |calls|
  {
    if calls != [] {
      AfterKeeps(x, calls[0]);
      RunsKeep(After(x, calls[0]).0, calls[1..]);
    }
  }

  /** In every state any sequence of API calls, interrupts and hardware steps reaches, whichever of
      them fail: the three layers agree, powered implies initialized implies enabled, a live
      normal mode is the one the FD setting selects, enabled events mean a frame does interrupt, the
      node's own invariants hold, and transmit interrupts were never armed; and the HAL is where the
      run's HAL calls put it, with the timing words of the last calculation that was let into
      Configuration mode, in the recorded mode or in Configuration mode. */
  lemma EveryCallSequence(x: Instance, past: Past, calls: seq<Call>)
    requires Inv(x) && PastInv(x.hal, past) && forall c | c in calls :: CallOk(c)
    ensures var y := Runs(x, calls);
            && Inv(y) && y.index == x.index
            && y.hal == HalRun(x.hal, AllOps(x, calls))
            && PastInv(y.hal, PastRun(past, x.hal, AllOps(x, calls)))
  {
    RunsKeep(x, calls);
    RunsAreHalRuns(x, calls);
    EveryHalRun(x.hal, false, past, AllOps(x, calls));
  }

  /** The identifier word a CMSIS identifier becomes. */
  function IdentifierWord(id: u32): nat {
    if id >= 0x8000_0000 then (id % 0x2000_0000) / 0x4_0000 + (id % 0x4_0000) * 0x800 else id % 0x800
  }

  /** The object an accepted MessageSend queues, word by word: the masked identifier, a control word
      that makes it a data frame, an FD frame exactly if asked for and never one while FD is switched
      off, and the caller's bytes with zeros behind them. */
  lemma SendQueuesConsistent(x: Instance, objIdx: nat, info: Option<MsgInfo>, data: Option<seq<u8>>, size: u8,
        stale: Payload, room: Reply)
    requires data.Some? ==> size <= |data.value|
    requires AfterSend(x, objIdx, info, data, size, stale, room).1 >= 0
    ensures var (y, rc) := AfterSend(x, objIdx, info, data, size, stale, room);
            && rc == size <= 64 && info.Some? && (info.value.edl || size <= 8) && (size > 0 ==> data.Some?)
            && y.ctx == x.ctx && y.index == x.index
            && exists words :: y.hal == x.hal.(regs := x.hal.regs.(queued := x.hal.regs.queued + multiset{words}))
                 && SentObject(words, info.value, if size == 0 then [] else data.value[..size])
                 && ObjectConsistent(words[1]) && (x.ctx.fdMode == 0 ==> words[1] < 0x80)
  {
    var bytes := if size == 0 then [] else data.value[..size];
    var f := SendFrame(info.value, SentBytes(data, size), stale);
    assert SentBytes(data, size) == bytes;
    EncodedConsistent(f);
    CtrlWordIs(f);
    var words := Encode(f);
    assert words[1] == CtrlWord(f);
    SentObjectIs(info.value, bytes, stale);
    ControlBelow(words[1], f);
  }

  predicate SentObject(words: seq<u32>, info: MsgInfo, bytes: seq<u8>)
    requires |bytes| <= 64
  {
    && |words| == 2 + (DlcToLen(LenToDlc(|bytes|)) + 3) / 4
    && words[0] == IdentifierWord(info.id)
    && IsControlWord(words[1], |bytes|, info.id >= 0x8000_0000, info.edl, info.brs)
    && forall w | 0 <= w < |words| - 2 ::
         words[2 + w] == ByteAt(bytes, |bytes|, 4 * w) + ByteAt(bytes, |bytes|, 4 * w + 1) * 0x100
                         + ByteAt(bytes, |bytes|, 4 * w + 2) * 0x1_0000 + ByteAt(bytes, |bytes|, 4 * w + 3) * 0x100_0000
  }

  lemma SentObjectIs(info: MsgInfo, bytes: seq<u8>, stale: Payload)
    requires |bytes| <= 64
    ensures SentObject(Encode(SendFrame(info, bytes, stale)), info, bytes)
  {
    var f := SendFrame(info, bytes, stale);
    CmsisIs();
    HalIdIs(info.id, CMSIS_ID);
    EncodedWords(f);
    assert forall i: nat :: ByteAt(f.data, f.len, i) == ByteAt(bytes, |bytes|, i);
    MaskedId(info.id);
  }

  lemma MaskedId(id: u32)
    ensures ((id % 0x2000_0000) / 0x4_0000) % 0x800 == (id % 0x2000_0000) / 0x4_0000
    ensures (id % 0x2000_0000) % 0x4_0000 == id % 0x4_0000 && (id % 0x800) % 0x800 == id % 0x800
  {}

  lemma ControlBelow(word: nat, f: Frame)
    requires f.len <= PAYLOAD_BYTES && IsControlWord(word, f.len, f.extended, f.fd, f.brs)
    ensures word < 0x80 <==> !f.fd
  {}

  /** SetMode answers OK without doing anything when the context already records the mode. Whether
      the instance then receives is decided before the call: by a mode change, or by events that
      were enabled already. */
  lemma SetModeOkMeansLive(x: Instance, mode: ArmMode, m: Mode, r: Replies)
    requires Inv(x) && AsksFor(mode, x.ctx.fdMode, m) && AfterSetMode(x, mode, r).1 == ARM_DRIVER_OK
    ensures var y := AfterSetMode(x, mode, r).0;
            && y.ctx.mode == m
            && (y.hal.events.enabled && y.hal.mode == m && y.hal.events.cb == CanHalEvent(y.index)
                <==> m != x.ctx.mode || x.hal.events.enabled)
  {
    if m != x.ctx.mode {
      ApplyKeeps(x, m, r);
    }
  }

  /** So a failed mode change, followed by a request for the old mode, ends in OK and silence. */
  lemma FailedChangeThenOldModeIsSilent(x: Instance, other: ArmMode, m: Mode, former: ArmMode, r: Replies, r': Replies)
    requires Inv(x) && x.ctx.powered && AsksFor(other, x.ctx.fdMode, m) && AsksFor(former, x.ctx.fdMode, x.ctx.mode)
    requires AfterSetMode(x, other, r).1 != ARM_DRIVER_OK
    ensures var y := AfterSetMode(x, other, r).0;
            && y.ctx.powered && AfterSetMode(y, former, r') == (y, ARM_DRIVER_OK)
            && !y.hal.events.enabled && y.hal.events.cb == NoCallback
  {
    ApplyKeeps(x, m, r);
  }

  lemma ApplyKeepsContext(x: Instance, mode: Mode, r: Replies)
    ensures var (y, rc) := AfterApply(x, mode, r);
            y.index == x.index && y.ctx == if rc == ARM_DRIVER_OK then x.ctx.(mode := mode) else x.ctx
  {}

  /** Mode and FD-mode changes keep the receive ring with everything in it, whether they succeed or
      fail. */
  lemma RingSurvivesModeChanges(x: Instance, mode: ArmMode, arg: nat, r: Replies)
    ensures AfterSetMode(x, mode, r).0.ctx.rx == x.ctx.rx
    ensures AfterControl(x, SetFdMode, arg, r).0.ctx.rx == x.ctx.rx
  {
    if HalModeOf(mode, x.ctx.fdMode).Some? {
      ApplyKeepsContext(x, HalModeOf(mode, x.ctx.fdMode).value, r);
    }
    var y := x.(ctx := x.ctx.(fdMode := arg));
    ApplyKeepsContext(y, NormalMode(arg), r);
    ApplyKeepsContext(y, x.ctx.mode, r);
  }

  /** The frames a run stores into the ring, and those it reads out of it. */
  ghost function Stored(x: Instance, calls: seq<Call>): seq<Frame>
    requires Inv(x) && forall c | c in calls :: CallOk(c)
    decreases |calls|
  {
    if calls == [] then []
    else
      AfterKeeps(x, calls[0]);
      StoredBy(x, calls[0]) + Stored(After(x, calls[0]).0, calls[1..])
  }

  function StoredBy(x: Instance, c: Call): seq<Frame>
    requires x.ctx.rx.Valid()
  {
    if c.Received? && Live(x) then c.frames[..if |c.frames| < x.ctx.rx.Room() then |c.frames| else x.ctx.rx.Room()]
    else []
  }

  ghost function Read(x: Instance, calls: seq<Call>): seq<Frame>
    requires Inv(x) && forall c | c in calls :: CallOk(c)
    decreases |calls|
  {
    if calls == [] then []
    else
      AfterKeeps(x, calls[0]);
      ReadBy(x, calls[0]) + Read(After(x, calls[0]).0, calls[1..])
  }

  function ReadBy(x: Instance, c: Call): seq<Frame>
    requires x.ctx.rx.Valid() && CallOk(c)
  {
    if c.MessageRead? && After(x, c).1 >= 0 then [x.ctx.rx.slots[x.ctx.rx.tail]] else []
  }

  /** A power-on of an unpowered instance is the only call that empties the ring. */
  predicate Empties(x: Instance, c: Call) {
    c.PowerControl? && c.state == PowerFull && x.ctx.initialized && !x.ctx.powered
  }

  lemma OneCallKeepsRing(x: Instance, c: Call)
    requires x.ctx.rx.Valid() && CallOk(c)
    ensures After(x, c).0.ctx.rx.Valid()
    ensures var ring, after := x.ctx.rx.Contents(), After(x, c).0.ctx.rx.Contents();
            if Empties(x, c) then after == [] else ReadBy(x, c) + after == ring + StoredBy(x, c)
  {
    if c.MessageRead? {
      ReadKeepsRing(x, c);
    } else if c.Received? {
      ReceiveKeepsRing(x, c);
    } else if Empties(x, c) {
      PowerOnEmpties(x, c);
    } else {
      RingUntouched(x, c);
    }
  }

  lemma ReceiveKeepsRing(x: Instance, c: Call)
    requires x.ctx.rx.Valid() && c.Received?
    ensures var y := After(x, c).0;
            y.ctx.rx.Valid() && y.ctx.rx.Contents() == x.ctx.rx.Contents() + StoredBy(x, c)
  {
    x.ctx.rx.PushAllContents(c.frames);
  }

  lemma PowerOnEmpties(x: Instance, c: Call)
    requires x.ctx.rx.Valid() && Empties(x, c)
    ensures After(x, c).0.ctx.rx.Valid() && After(x, c).0.ctx.rx.Contents() == []
  {
    var y := After(x, c).0;
    assert y.ctx.rx == x.ctx.rx.(head := 0, tail := 0);
    y.ctx.rx.Capacity();
  }

  lemma ReadKeepsRing(x: Instance, c: Call)
    requires x.ctx.rx.Valid() && c.MessageRead?
    ensures var y := After(x, c).0;
            y.ctx.rx.Valid() && ReadBy(x, c) + y.ctx.rx.Contents() == x.ctx.rx.Contents()
  {
    if After(x, c).1 >= 0 {
      x.ctx.rx.PopContents();
    }
  }

  lemma RingUntouched(x: Instance, c: Call)
    requires x.ctx.rx.Valid() && CallOk(c) && !c.MessageRead? && !c.Received? && !Empties(x, c)
    ensures After(x, c).0.ctx.rx == x.ctx.rx
  {}

  /** No call of the run empties the ring. */
  ghost predicate NeverEmptied(x: Instance, calls: seq<Call>)
    requires Inv(x) && forall c | c in calls :: CallOk(c)
    decreases |calls|
  {
    calls == [] || (
      AfterKeeps(x, calls[0]);
      !Empties(x, calls[0]) && NeverEmptied(After(x, calls[0]).0, calls[1..]))
  }

  lemma FirstCall(x: Instance, calls: seq<Call>)
    requires Inv(x) && (forall c | c in calls :: CallOk(c)) && calls != []
    ensures var y := After(x, calls[0]).0;
            && Inv(y) && Runs(x, calls) == Runs(y, calls[1..])
            && Read(x, calls) == ReadBy(x, calls[0]) + Read(y, calls[1..])
            && Stored(x, calls) == StoredBy(x, calls[0]) + Stored(y, calls[1..])
            && (NeverEmptied(x, calls) ==> !Empties(x, calls[0]) && NeverEmptied(y, calls[1..]))
  {
    AfterKeeps(x, calls[0]);
  }

  lemma Glue(ring: seq<Frame>, read: seq<Frame>, stored: seq<Frame>, middle: seq<Frame>,
             read': seq<Frame>, stored': seq<Frame>, end: seq<Frame>)
    requires read + middle == ring + stored && read' + end == middle + stored'
    ensures (read + read') + end == ring + (stored + stored')
  {
    assert (read + read') + end == read + (middle + stored') == (ring + stored) + stored';
  }

  /** Nothing in the ring is lost, added or reordered by any call, mode change or failure: between
      power-ons, what is read followed by what is left is what was there followed by what was
      stored. */
  lemma {:induction false} RingConserved(x: Instance, calls: seq<Call>)
    requires Inv(x) && (forall c | c in calls :: CallOk(c)) && NeverEmptied(x, calls)
    ensures Runs(x, calls).ctx.rx.Valid()
    ensures Read(x, calls) + Runs(x, calls).ctx.rx.Contents() == x.ctx.rx.Contents() + Stored(x, calls)
    decreases |calls|
  {
    if calls != [] {
      var c, y, rest := calls[0], After(x, calls[0]).0, calls[1..];
      FirstCall(x, calls);
      OneCallKeepsRing(x, c);
      RingConserved(y, rest);
      Glue(x.ctx.rx.Contents(), ReadBy(x, c), StoredBy(x, c), y.ctx.rx.Contents(),
           Read(y, rest), Stored(y, rest), Runs(y, rest).ctx.rx.Contents());
    }
  }

  // ------------------------------------------------------------------------------------
  // What each call answers and changes
  // ------------------------------------------------------------------------------------

  /** The answer a HAL status becomes. */
  predicate AnswerFor(st: Status, rc: int) {
    match st
    case Ok => rc == 0
    case InvalidArg => rc == -5
    case Timeout => rc == -3
    case _ => rc == -1
  }

  lemma AnswerIs(st: Status)
    ensures AnswerFor(st, ToArm(st))
  {}

  /** The calculation an instance's settings lead to. */
  function SettingsTiming(ctx: Context): TimingResult {
    TimingFor(ctx.clk, ctx.nominal, ctx.data, if ctx.pct == 0 then 80 else ctx.pct)
  }

  /** The status a re-apply ends with, in the order things can go wrong. */
  function ApplyStatus(x: Instance, mode: Mode, r: Replies): Status {
    var t := SettingsTiming(x.ctx);
    if x.ctx.msgRam % 4 != 0 || mode == NoMode then InvalidArg
    else if !x.hal.present then NotPresent
    else if t.BadArgument? then InvalidArg
    else if t.Trapped? then MathTrap
    else if (x.hal.regs.con.opmod != 4 && r.enter == Ignores) || r.leave == Ignores then Timeout
    else if x.ctx.priority > 7 then InvalidArg
    else Ok
  }

  /** An instance that runs in a mode with its own settings and nothing else. */
  predicate RunsWith(x: Instance, mode: Mode) {
    && x.hal.mode == mode && x.hal.node == Node(true, x.ctx.timeoutMs)
    && x.hal.events.cb == CanHalEvent(x.index) && x.hal.events.enabled
    && x.hal.events.priority == (if x.ctx.priority == 0 then 4 else x.ctx.priority)
    && x.hal.events.lines == Lines(true, false, true)
    && x.hal.events.ints == IntEnables(false, true, true, false, false)
    && x.hal.regs.rxNotEmptyIe && x.hal.regs.rxOverflowIe && !x.hal.regs.txqeie
    && x.hal.regs.con.on && ShowsMode(x.hal.regs.con.opmod, mode) && ShowsMode(x.hal.regs.con.reqop, mode)
    && (x.hal.regs.con.brsdis <==> x.ctx.fdMode == 0) && x.hal.regs.fifoba == x.ctx.msgRam
    && SettingsTiming(x.ctx) == Good(x.hal.regs.timing)
  }

  /** An instance nothing can interrupt and no callback is registered for. */
  predicate Silent(h: Hal) {
    h.events.cb == NoCallback && (h.present ==> !h.events.enabled && h.events.lines == Lines(false, false, false))
  }

  lemma QuietedOutcome(h: Hal)
    ensures var q := Quiesced(h);
            && Silent(q) && q.present == h.present && q.node == h.node && q.mode == h.mode
            && q.regs.con == h.regs.con && q.regs.timing == h.regs.timing && q.regs.queued == h.regs.queued
            && (h.present ==> q.events.ints == IntEnables(false, false, false, false, false) && !q.events.txBusy)
  {
    DisableOutcome(h);
  }

  lemma WentLive(x: Instance, mode: Mode, h: Hal)
    requires Configured(h.regs, ConfigOf(x.ctx, mode))
    requires h.node == Node(true, x.ctx.timeoutMs) && h.mode == mode != NoMode
    requires h.present && SettingsTiming(x.ctx) == Good(h.regs.timing) && x.ctx.priority <= 7
    requires h.events.lines == Lines(false, false, false)
    requires h.events.ints == IntEnables(false, false, false, false, false)
    ensures var (e, st) := AfterEnable(AfterSetCallback(h, CanHalEvent(x.index)), x.ctx.priority);
            st == Ok && RunsWith(x.(hal := e, ctx := x.ctx.(mode := mode)), mode)
  {
    EnableOutcome(AfterSetCallback(h, CanHalEvent(x.index)), x.ctx.priority);
  }

  /** Every re-apply: the answer, and then either the instance runs with its settings in the new
      mode, or it is silent with its context as it was; and if its arguments were accepted, down. */
  lemma ApplyOutcome(x: Instance, mode: Mode, r: Replies)
    ensures var (y, rc) := AfterApply(x, mode, r);
            var st := ApplyStatus(x, mode, r);
            && AnswerFor(st, rc) && y.index == x.index
            && y.ctx == (if st == Ok then x.ctx.(mode := mode) else x.ctx)
            && (st == Ok ==> RunsWith(y, mode))
            && (st != Ok ==> Silent(y.hal))
            && (st != Ok && x.hal.present && x.ctx.msgRam % 4 == 0 && mode != NoMode && SettingsTiming(x.ctx).Good? ==>
                  y.hal.mode == NoMode && !y.hal.node.initialized && !y.hal.regs.con.on)
  {
    var q, cfg := Quiesced(x.hal), ConfigOf(x.ctx, mode);
    QuietedOutcome(x.hal);
    InitOutcome(q, cfg, r.enter, r.leave);
    var (h, st) := AfterInit(q, cfg, r.enter, r.leave);
    AnswerIs(st);
    if st == Ok {
      if x.ctx.priority <= 7 {
        WentLive(x, mode, h);
      } else {
        EnableOutcome(AfterSetCallback(h, CanHalEvent(x.index)), x.ctx.priority);
      }
    }
  }

  lemma InitializeOutcome(x: Instance, cbUnit: bool, cbObject: bool)
    ensures var (y, rc) := AfterInitialize(x, cbUnit, cbObject);
            && rc == (if x.ctx.enabled then 0 else -4)
            && (rc != 0 ==> y == x)
            && (rc == 0 ==>
                  && y.hal == x.hal && y.index == x.index
                  && y.ctx.cbUnit == cbUnit && y.ctx.cbObject == cbObject && y.ctx.initialized && !y.ctx.powered
                  && x.ctx == y.ctx.(cbUnit := x.ctx.cbUnit, cbObject := x.ctx.cbObject,
                                     initialized := x.ctx.initialized, powered := x.ctx.powered))
  {}

  lemma UninitializeOutcome(x: Instance, r: Replies)
    requires Inv(x)
    ensures var (y, rc) := AfterUninitialize(x, r);
            && rc == 0 && y.index == x.index
            && !y.ctx.initialized && !y.ctx.powered && !y.ctx.cbUnit && !y.ctx.cbObject
            && x.ctx == y.ctx.(cbUnit := x.ctx.cbUnit, cbObject := x.ctx.cbObject,
                               initialized := x.ctx.initialized, powered := x.ctx.powered)
            && (if x.ctx.powered then Silent(y.hal) && y.hal.mode == NoMode && !y.hal.node.initialized
                else y.hal == x.hal)
  {
    QuietedOutcome(x.hal);
    DeinitOutcome(Quiesced(x.hal), r.enter, r.enter);
  }

  /** A power-on of an unpowered instance: powered afterwards exactly if it answers OK, the ring empty
      either way, and either running with the cached settings in the mode FD selects or silent. */
  lemma PowerOnOutcome(x: Instance, r: Replies)
    requires x.ctx.initialized && !x.ctx.powered
    ensures var (y, rc) := AfterPower(x, PowerFull, r);
            var mode := if x.ctx.fdMode != 0 then NormalFd else NormalClassic;
            && AnswerFor(ApplyStatus(x, mode, r), rc) && y.index == x.index
            && (y.ctx.powered <==> rc == 0)
            && y.ctx == x.ctx.(powered := y.ctx.powered, mode := if rc == 0 then mode else x.ctx.mode,
                               rx := x.ctx.rx.(head := 0, tail := 0))
            && (if rc == 0 then RunsWith(y, mode) else Silent(y.hal))
  {
    ApplyOutcome(WithEmptyRing(x), NormalMode(x.ctx.fdMode), r);
  }

  /** Every other power call. */
  lemma PowerOutcome(x: Instance, state: PowerState, r: Replies)
    requires state != PowerFull || x.ctx.powered || !x.ctx.initialized
    ensures var (y, rc) := AfterPower(x, state, r);
            && rc == (if !x.ctx.initialized then -1
                      else if state == PowerLow then -4
                      else if state == PowerOther then -5
                      else 0)
            && y.index == x.index
            && (rc != 0 || state == PowerFull ==> y == x)
            && (rc == 0 && state == PowerOff ==>
                  && y.ctx == x.ctx.(powered := false)
                  && (if x.ctx.powered then Silent(y.hal) else y.hal == x.hal))
  {
    QuietedOutcome(x.hal);
  }

  /** A successful power-on runs with the timing words of the cached rates. */
  lemma PowerOnProgramsCachedRates(x: Instance, r: Replies)
    requires x.ctx.initialized && !x.ctx.powered
    ensures var (y, rc) := AfterPower(x, PowerFull, r);
            rc == ARM_DRIVER_OK ==>
              && y.ctx.powered && y.hal.events.enabled && y.hal.mode == NormalMode(x.ctx.fdMode)
              && y.hal.regs.con.opmod == ModeCode(NormalMode(x.ctx.fdMode))
              && TimingFor(x.ctx.clk, x.ctx.nominal, x.ctx.data, SamplePct(x.ctx.pct)) == Good(y.hal.regs.timing)
  {
    PowerOnOutcome(x, r);
    ModeNumber(NormalMode(x.ctx.fdMode));
  }

  /** A power-on succeeds exactly when the HAL accepts the cached settings, the module follows both
      requests and the interrupt priority exists. */
  lemma PowerOnIff(x: Instance, r: Replies)
    requires x.ctx.initialized && !x.ctx.powered
    ensures AfterPower(x, PowerFull, r).1 == 0 <==>
              && x.ctx.msgRam % 4 == 0 && x.hal.present && SettingsTiming(x.ctx).Good?
              && (x.hal.regs.con.opmod == 4 || r.enter == Follows) && r.leave == Follows
              && x.ctx.priority <= 7
  {
    PowerOnOutcome(x, r);
  }

  lemma PercentValue(prop: u8, ph1: u8, ph2: u8)
    requires ph2 != 0
    ensures PercentOf(prop, ph1, ph2) == (100 * (1 + prop + ph1)) / (1 + prop + ph1 + ph2)
  {
    FloorDiv(Before(prop, ph1) * 100, Quanta(prop, ph1, ph2), 100);
  }

  /** The sample point a segment word stands for: propagation in bits 0 to 7, the first segment in 8
      to 15, the second in 16 to 23; a word without a second segment leaves it as it was. */
  lemma PercentFromWord(pct: u8, word: u32)
    ensures var prop, ph1, ph2 := word % 0x100, (word / 0x100) % 0x100, (word / 0x1_0000) % 0x100;
            PctFrom(pct, word) == if word != 0 && ph2 != 0 then (100 * (1 + prop + ph1)) / (1 + prop + ph1 + ph2)
                                  else pct
  {
    var s := SegmentsOf(word);
    if s.ph2 != 0 {
      PercentFloor(s.prop, s.ph1, s.ph2);
      PercentValue(s.prop, s.ph1, s.ph2);
    }
  }

  lemma CachedRates(x: Instance, select: BitrateSelect, rate: u32, segments: u32, pct: u8, r: Replies)
    requires pct == PctFrom(x.ctx.pct, segments)
    ensures var (y, rc) := AfterCmsisBitrate(x, select, rate, segments, r);
            var nominal := if rate != 0 && select == Nominal then rate else x.ctx.nominal;
            var data := if rate != 0 && select == FdData then rate else x.ctx.data;
            && y.index == x.index
            && y.ctx == x.ctx.(nominal := nominal, data := data, pct := if rate != 0 then pct else x.ctx.pct)
            && (rate == 0 || select == OtherSelect ==> rc == -5 && y.hal == x.hal)
            && (rate != 0 && select != OtherSelect && !x.ctx.powered ==> rc == 0 && y.hal == x.hal)
            && (rate != 0 && select != OtherSelect && x.ctx.powered ==>
                  var (h, st) := AfterSetBitrate(x.hal, x.ctx.clk, nominal, data, pct, r.enter, r.leave);
                  y.hal == h && AnswerFor(st, rc))
  {
    var nominal := if select == Nominal then rate else x.ctx.nominal;
    var data := if select == FdData then rate else x.ctx.data;
    AnswerIs(AfterSetBitrate(x.hal, x.ctx.clk, nominal, data, pct, r.enter, r.leave).1);
  }

  /** A rate call: a zero rate changes nothing; any other is cached in the place selected, and the
      sample point is that of the segment fields, if the word has any; a powered instance then asks
      the HAL for both cached rates. */
  lemma BitrateOutcome(x: Instance, select: BitrateSelect, rate: u32, segments: u32, r: Replies)
    ensures var (y, rc) := AfterCmsisBitrate(x, select, rate, segments, r);
            var prop, ph1, ph2 := segments % 0x100, (segments / 0x100) % 0x100, (segments / 0x1_0000) % 0x100;
            var nominal := if rate != 0 && select == Nominal then rate else x.ctx.nominal;
            var data := if rate != 0 && select == FdData then rate else x.ctx.data;
            && y.index == x.index
            && y.ctx.nominal == nominal && y.ctx.data == data
            && y.ctx.pct == (if rate != 0 && segments != 0 && ph2 != 0
                             then (100 * (1 + prop + ph1)) / (1 + prop + ph1 + ph2) else x.ctx.pct)
            && y.ctx == x.ctx.(nominal := nominal, data := data, pct := y.ctx.pct)
            && (rate == 0 || select == OtherSelect ==> rc == -5 && y.hal == x.hal)
            && (rate != 0 && select != OtherSelect && !x.ctx.powered ==> rc == 0 && y.hal == x.hal)
            && (rate != 0 && select != OtherSelect && x.ctx.powered ==>
                  var (h, st) := AfterSetBitrate(x.hal, x.ctx.clk, nominal, data, y.ctx.pct, r.enter, r.leave);
                  y.hal == h && AnswerFor(st, rc))
  {
    PercentFromWord(x.ctx.pct, segments);
    CachedRates(x, select, rate, segments, PctFrom(x.ctx.pct, segments), r);
  }

  /** The HAL mode an ARM mode asks for; there is none for initialization and restricted operation. */
  predicate AsksFor(mode: ArmMode, fdMode: nat, m: Mode) {
    match mode
    case Normal => m == if fdMode == 0 then NormalClassic else NormalFd
    case Monitor => m == ListenOnly
    case LoopbackInternal => m == InternalLoopback
    case LoopbackExternal => m == ExternalLoopback
    case _ => false
  }

  lemma ModeOutcome(x: Instance, mode: ArmMode, m: Mode, r: Replies)
    requires AsksFor(mode, x.ctx.fdMode, m) || mode == Initialization || mode == Restricted
    ensures var (y, rc) := AfterSetMode(x, mode, r);
            && y.index == x.index
            && (!x.ctx.initialized ==> rc == -1 && y == x)
            && (x.ctx.initialized && mode == Initialization ==> rc == 0 && y == x)
            && (x.ctx.initialized && mode == Restricted ==> rc == -4 && y == x)
            && (x.ctx.initialized && AsksFor(mode, x.ctx.fdMode, m) ==>
                  if !x.ctx.powered then rc == -1 && y == x
                  else if m == x.ctx.mode then rc == 0 && y == x
                  else
                    && AnswerFor(ApplyStatus(x, m, r), rc)
                    && y.ctx == (if rc == 0 then x.ctx.(mode := m) else x.ctx)
                    && (if rc == 0 then RunsWith(y, m) else Silent(y.hal)))
  {
    ApplyOutcome(x, m, r);
  }

  /** The FD switch is recorded whenever its argument is 0 or 1, and a powered instance re-applies: a
      normal mode becomes the one FD now selects, any other is kept. */
  lemma FdSwitchOutcome(x: Instance, arg: nat, r: Replies)
    ensures var (y, rc) := AfterControl(x, SetFdMode, arg, r);
            var normal := x.ctx.mode == NormalFd || x.ctx.mode == NormalClassic;
            var m := if !normal then x.ctx.mode else if arg == 0 then NormalClassic else NormalFd;
            && y.index == x.index
            && (!x.ctx.initialized ==> rc == -1 && y == x)
            && (x.ctx.initialized && arg > 1 ==> rc == -5 && y == x)
            && (x.ctx.initialized && arg <= 1 && !x.ctx.powered ==>
                  rc == 0 && y == x.(ctx := x.ctx.(fdMode := arg)))
            && (x.ctx.initialized && arg <= 1 && x.ctx.powered ==>
                  && AnswerFor(ApplyStatus(x, m, r), rc)
                  && y.ctx == x.ctx.(fdMode := arg, mode := if rc == 0 then m else x.ctx.mode)
                  && (if rc == 0 then RunsWith(y, m) else Silent(y.hal)))
  {
    var z := x.(ctx := x.ctx.(fdMode := arg));
    var m := if x.ctx.mode == NormalFd || x.ctx.mode == NormalClassic then NormalMode(arg) else x.ctx.mode;
    assert ApplyStatus(z, m, r) == ApplyStatus(x, m, r);
    ApplyOutcome(z, m, r);
  }

  /** Aborting disarms the transmit side; the other controls are not supported. */
  lemma ControlOutcome(x: Instance, control: Control, arg: nat, r: Replies)
    requires control != SetFdMode
    ensures var (y, rc) := AfterControl(x, control, arg, r);
            var aborts := x.ctx.initialized && x.ctx.powered && control == AbortMessageSend && arg == 0;
            && y.ctx == x.ctx && y.index == x.index
            && (if aborts && x.hal.present
                then rc == 0 && TransmitSide(x.hal, y.hal, false) && y.hal.regs.queued == x.hal.regs.queued
                else y == x)
            && (aborts && !x.hal.present ==> rc == -1)
            && (!aborts ==> rc == (if !x.ctx.initialized then -1
                                   else if control == OtherControl then -4
                                   else if !x.ctx.powered then -1
                                   else -5))
  {
    TxEndOutcome(x.hal, false, false);
  }

  /** A read: refused in this order, or the oldest frame leaves the ring. */
  lemma ReadOutcome(x: Instance, objIdx: nat, infoGiven: bool, bufferGiven: bool, size: u8)
    requires x.ctx.rx.Valid()
    ensures var (y, rc) := AfterRead(x, objIdx, infoGiven, bufferGiven, size);
            var ring := x.ctx.rx.Contents();
            && (if !x.ctx.powered then rc == -1
                else if !infoGiven || objIdx != 1 || (size > 0 && !bufferGiven) then rc == -5
                else if ring == [] then rc == -1
                else rc == if ring[0].len < size then ring[0].len else size)
            && (rc < 0 ==> y == x)
            && (rc >= 0 ==>
                  && y == x.(ctx := x.ctx.(rx := y.ctx.rx)) && y.ctx.rx.Valid() && y.ctx.rx.Contents() == ring[1..])
  {
    x.ctx.rx.Capacity();
    if !x.ctx.rx.Empty() {
      x.ctx.rx.PopContents();
    }
  }

  /** A power-off answers OK; whether it takes the HAL down is decided by the powered flag alone. */
  lemma PowerOffTakesDown(x: Instance, r: Replies)
    requires Inv(x) && x.ctx.initialized
    ensures var (y, rc) := AfterPower(x, PowerOff, r);
            && rc == ARM_DRIVER_OK && !y.ctx.powered
            && (y.hal.mode == NoMode <==> x.ctx.powered || x.hal.mode == NoMode)
            && (y.hal.events.enabled <==> !x.ctx.powered && x.hal.events.enabled)
            && (x.ctx.powered ==> y.hal.events.cb == NoCallback && !y.hal.node.initialized)
  {
    DeinitOutcome(Quiesced(x.hal), r.enter, r.enter);
  }

  /** A second Initialize clears that flag, so the power-off after it leaves a live instance live. */
  lemma InitializeThenPowerOffStaysLive(x: Instance, cbUnit: bool, cbObject: bool, r: Replies)
    requires Inv(x) && x.ctx.initialized
    ensures var y := AfterInitialize(x, cbUnit, cbObject).0;
            var z := AfterPower(y, PowerOff, r).0;
            && !z.ctx.powered && z.hal == x.hal
            && (x.hal.events.enabled ==> z.hal.events.enabled && z.hal.node.initialized)
  {
    assert AfterInitialize(x, cbUnit, cbObject).1 == ARM_DRIVER_OK;
  }

  /** A message is accepted exactly when it is a data frame for the transmit object that fits its
      format, FD is on if it is an FD frame, the node is up and the queue has room; otherwise
      nothing changes. */
  lemma SendAcceptedIff(x: Instance, objIdx: nat, info: Option<MsgInfo>, data: Option<seq<u8>>, size: u8,
        stale: Payload, room: Reply)
    requires data.Some? ==> size <= |data.value|
    ensures var (y, rc) := AfterSend(x, objIdx, info, data, size, stale, room);
            && (rc >= 0 <==>
                  && x.ctx.powered && objIdx == 0 && info.Some? && (size > 0 ==> data.Some?)
                  && !info.value.rtr && size <= (if info.value.edl then 64 else 8)
                  && (info.value.edl ==> x.ctx.fdMode != 0)
                  && x.hal.node.initialized && room == Follows)
            && (rc < 0 ==>
                  && y == x
                  && rc == (if !x.ctx.powered then -1
                            else if info.None? || objIdx != 0 || size > 64 || (size > 0 && data.None?) then -5
                            else if info.value.rtr || (x.ctx.fdMode == 0 && (info.value.edl || size > 8)) then -4
                            else if !info.value.edl && size > 8 then -5
                            else if !x.hal.node.initialized then -1
                            else -3))
  {
    if SendRefusal(x.ctx, objIdx, info, data, size) == ARM_DRIVER_OK {
      var f := SendFrame(info.value, SentBytes(data, size), stale);
      assert f.len == size;
      TransmitOutcome(x.hal, f, room);
      AnswerIs(AfterTransmit(x.hal, f, room).1);
    }
  }
}
