/** One CAN FD instance below the CMSIS wrapper: node state, mode bookkeeping, registers as
    fields, event layer and CPU interrupt lines, with the net effect of every HAL call. */
module HalModel {
  import opened Bits
  import opened BitTiming
  import opened FrameCodec

  datatype Option<T> = None | Some(value: T)

  /** MathTrap stands for a call that ends in the processor's division trap. */
  datatype Status =
    | Ok
    | InvalidArg
    | NotPresent
    | NotInitialized
    | Timeout
    | Sequence
    | MathTrap

  datatype Mode = NoMode | NormalFd | NormalClassic | InternalLoopback | ListenOnly | ExternalLoopback

  const OPMODE_CONFIG := 4

  /** The REQOP code of a mode. */
  function ModeCode(mode: Mode): nat {
    match mode
    case NormalFd => 0
    case NormalClassic => 6
    case InternalLoopback => 2
    case ExternalLoopback => 5
    case ListenOnly => 3
    case NoMode => OPMODE_CONFIG
  }

  /** Whether the module answers a mode request before the timeout. */
  datatype Reply = Follows | Ignores

  datatype Con = Con(on: bool, reqop: nat, opmod: nat,
                     clksel: bool, isocrc: bool, brsdis: bool, stef: bool, txqen: bool)
  datatype Geometry = Geometry(plsize: nat, fsize: nat)
  const GEOMETRY := Geometry(7, 3)
  const MSG_RAM_BYTES := 576

  /** Filter 0: object, mask, destination FIFO and enable. */
  datatype Filter = Filter(obj: nat, mask: nat, fifo: nat, on: bool)
  const ACCEPT_ALL := Filter(0, 0, 1, true)

  datatype Regs = Regs(
    con: Con, timing: Timing, fifoba: nat, filter: Filter,
    txq: Geometry, txqeie: bool, rx: Geometry, rxNotEmptyIe: bool, rxOverflowIe: bool,
    /** Objects handed to the transmit queue and not yet sent; the hardware picks the order. */
    queued: multiset<seq<u32>>)

  datatype IntEnables = IntEnables(tx: bool, rx: bool, rxov: bool, cerr: bool, ivm: bool)
  datatype Lines = Lines(rx: bool, tx: bool, gen: bool)
  datatype Callback = NoCallback | CanHalEvent(ctx: nat)

  /** Event layer: callback with its context, busy flag, priority, enabled flag, module interrupt
      enables, CPU lines. */
  datatype Events = Events(cb: Callback, txBusy: bool, priority: nat, enabled: bool, ints: IntEnables, lines: Lines)

  datatype Node = Node(initialized: bool, timeoutMs: u32)
  datatype Hal = Hal(present: bool, node: Node, mode: Mode, regs: Regs, events: Events)

  datatype Config = Config(clk: u32, nominal: u32, data: u32, pct: u8, brs: bool, mode: Mode, timeoutMs: u32,
                           msgRam: Option<nat>, msgRamSize: nat)

  /** The state the program starts in: nothing initialized, no callback, every line off. The
      registers hold whatever reset left in them; nothing is queued. */
  function AtBoot(present: bool, regs: Regs): Hal {
    Hal(present, Node(false, 0), NoMode, regs.(queued := multiset{}),
        Events(NoCallback, false, 0, false, IntEnables(false, false, false, false, false), Lines(false, false, false)))
  }

  // ------------------------------------------------------------------------------------
  // Node layer
  // ------------------------------------------------------------------------------------

  /** The request is granted if the module is in the mode already or goes there in time. */
  predicate Granted(con: Con, code: nat, reply: Reply) {
    con.opmod == code || reply == Follows
  }

  function AfterRequest(con: Con, code: nat, reply: Reply): Con {
    con.(reqop := code, opmod := if Granted(con, code, reply) then code else con.opmod)
  }

  /** The checks of nora_canfd_init, in order; nothing has changed when one fails. */
  function InitRefusal(h: Hal, cfg: Config): Status {
    if cfg.msgRam.None? || cfg.msgRam.value % 4 != 0 || cfg.msgRamSize < MSG_RAM_BYTES
       || cfg.mode == NoMode then InvalidArg
    else if !h.present then NotPresent
    else
      match TimingFor(cfg.clk, cfg.nominal, cfg.data, SamplePct(cfg.pct))
      case BadArgument => InvalidArg
      case Trapped => MathTrap
      case Good(_) => Ok
  }

  /** The registers once everything is written, still in Configuration mode. */
  function ConfiguredRegs(r: Regs, cfg: Config, t: Timing): Regs
    requires cfg.msgRam.Some?
  {
    Regs(Con(true, OPMODE_CONFIG, OPMODE_CONFIG, false, true, !cfg.brs, false, true), t, cfg.msgRam.value, ACCEPT_ALL,
         GEOMETRY, false, GEOMETRY, false, false, r.queued)
  }

  /** Bring-up with accepted arguments: down first, through Configuration mode, up at the end. */
  function AfterBringUp(h: Hal, cfg: Config, t: Timing, enter: Reply, leave: Reply): (Hal, Status)
    requires cfg.msgRam.Some?
  {
    var down := h.(node := Node(false, cfg.timeoutMs), mode := NoMode);
    if !Granted(h.regs.con, OPMODE_CONFIG, enter) then
      (down.(regs := h.regs.(con := h.regs.con.(on := false, reqop := OPMODE_CONFIG))), Timeout)
    else
      var r := ConfiguredRegs(h.regs, cfg, t);
      var back := AfterRequest(r.con, ModeCode(cfg.mode), leave);
      if !Granted(r.con, ModeCode(cfg.mode), leave) then (down.(regs := r.(con := back.(on := false))), Timeout)
      else (h.(node := Node(true, cfg.timeoutMs), mode := cfg.mode, regs := r.(con := back)), Ok)
  }

  function AfterInit(h: Hal, cfg: Config, enter: Reply, leave: Reply): (Hal, Status) {
    if InitRefusal(h, cfg) != Ok then (h, InitRefusal(h, cfg))
    else AfterBringUp(h, cfg, TimingFor(cfg.clk, cfg.nominal, cfg.data, SamplePct(cfg.pct)).timing, enter, leave)
  }

  /** New timing words for a running node: the three change together, and only inside
      Configuration mode. */
  function AfterRetime(h: Hal, t: Timing, enter: Reply, leave: Reply): (Hal, Status) {
    var config := AfterRequest(h.regs.con, OPMODE_CONFIG, enter);
    if config.opmod != OPMODE_CONFIG then (h.(regs := h.regs.(con := config)), Timeout)
    else
      var back := AfterRequest(config, ModeCode(h.mode), leave);
      (h.(regs := h.regs.(con := back, timing := t)), if back.opmod == ModeCode(h.mode) then Ok else Timeout)
  }

  function AfterSetBitrate(h: Hal, clk: u32, nominal: u32, data: u32, pct: u8, enter: Reply, leave: Reply)
    : (Hal, Status)
  {
    if clk == 0 || nominal == 0 || data == 0 then (h, InvalidArg)
    else if !h.present then (h, NotPresent)
    else if !h.node.initialized then (h, NotInitialized)
    else AfterCalculation(h, TimingFor(clk, nominal, data, SamplePct(pct)), enter, leave)
  }

  function AfterCalculation(h: Hal, r: TimingResult, enter: Reply, leave: Reply): (Hal, Status) {
    match r
    case BadArgument => (h, InvalidArg)
    case Trapped => (h, MathTrap)
    case Good(t) => AfterRetime(h, t, enter, leave)
  }

  function AfterDeinit(h: Hal, reply: Reply): (Hal, Status) {
    if !h.present then (h, NotPresent)
    else if h.mode == NoMode then (h.(node := h.node.(initialized := false)), Ok)
    else
      (h.(node := h.node.(initialized := false), mode := NoMode,
          regs := h.regs.(con := AfterRequest(h.regs.con, OPMODE_CONFIG, reply).(on := false))), Ok)
  }

  /** Blocking transmit; room says whether the queue has a free object in time. */
  function AfterTransmit(h: Hal, f: Frame, room: Reply): (Hal, Status) {
    if f.len > PAYLOAD_BYTES || (!f.fd && f.len > 8) then (h, InvalidArg)
    else if !h.node.initialized then (h, NotInitialized)
    else if room == Ignores then (h, Timeout)
    else (h.(regs := h.regs.(queued := h.regs.queued + multiset{Encode(f)})), Ok)
  }

  // ------------------------------------------------------------------------------------
  // Event layer
  // ------------------------------------------------------------------------------------

  const DEFAULT_PRIORITY := 4

  function AfterSetCallback(h: Hal, cb: Callback): Hal {
    h.(events := h.events.(cb := cb))
  }

  /** Receive sources and lines on; the transmit line is left as it is. */
  function AfterEnable(h: Hal, priority: nat): (Hal, Status) {
    var p := if priority == 0 then DEFAULT_PRIORITY else priority;
    if p > 7 then (h, InvalidArg)
    else if !h.present then (h, NotPresent)
    else if h.mode == NoMode then (h, NotInitialized)
    else
      (h.(regs := h.regs.(rxNotEmptyIe := true, rxOverflowIe := true),
          events := h.events.(txBusy := false, priority := p, enabled := true,
                              ints := h.events.ints.(rx := true, rxov := true),
                              lines := h.events.lines.(rx := true, gen := true))), Ok)
  }

  /** Every source and every line off. */
  function AfterDisable(h: Hal): (Hal, Status) {
    if !h.present then (h, NotPresent)
    else
      (h.(regs := h.regs.(rxNotEmptyIe := false, rxOverflowIe := false, txqeie := false),
          events := Events(h.events.cb, false, h.events.priority, false,
                           IntEnables(false, false, false, false, false), Lines(false, false, false))), Ok)
  }

  function Arm(h: Hal, on: bool): Hal {
    h.(regs := h.regs.(txqeie := on),
       events := h.events.(txBusy := on, ints := h.events.ints.(tx := on), lines := h.events.lines.(tx := on)))
  }

  function AfterTxStart(h: Hal, f: Frame, room: Reply): (Hal, Status) {
    if !h.present then (h, NotPresent)
    else if !h.events.enabled then (h, Sequence)
    else
      var (t, st) := AfterTransmit(h, f, room);
      if st != Ok then (h, st) else (Arm(t, true), Ok)
  }

  function AfterTxAbort(h: Hal): (Hal, Status) {
    if !h.present then (h, NotPresent) else (Arm(h, false), Ok)
  }

  /** The handler's transmit part: completion is seen when the module raises TXIF and the queue
      is empty. */
  function AfterTxInterrupt(h: Hal, txif: bool, queueEmpty: bool): (Hal, Status) {
    if !h.present then (h, NotPresent)
    else if txif && queueEmpty then (Arm(h, false), Ok)
    else (h, Ok)
  }

  // ------------------------------------------------------------------------------------
  // All runs of HAL calls
  // ------------------------------------------------------------------------------------

  /** Settle and Send are the hardware's: a late answer to a mode request, a frame leaving the
      queue for the bus. */
  datatype HalOp =
    | Init(cfg: Config, enter: Reply, leave: Reply)
    | SetBitrate(clk: u32, nominal: u32, data: u32, pct: u8, enter: Reply, leave: Reply)
    | Deinit(reply: Reply)
    | Transmit(frame: Frame, room: Reply)
    | SetCallback(cb: Callback)
    | IsrEnable(priority: nat)
    | IsrDisable
    | TxStart(frame: Frame, room: Reply)
    | TxAbort
    | TxInterrupt(txif: bool, queueEmpty: bool)
    | Settle
    | Send(words: seq<u32>)

  function HalNext(h: Hal, op: HalOp): (Hal, Status) {
    match op
    case Init(cfg, enter, leave) => AfterInit(h, cfg, enter, leave)
    case SetBitrate(clk, nominal, data, pct, enter, leave) => AfterSetBitrate(h, clk, nominal, data, pct, enter, leave)
    case Deinit(reply) => AfterDeinit(h, reply)
    case Transmit(frame, room) => AfterTransmit(h, frame, room)
    case SetCallback(cb) => (AfterSetCallback(h, cb), Ok)
    case IsrEnable(priority) => AfterEnable(h, priority)
    case IsrDisable => AfterDisable(h)
    case TxStart(frame, room) => AfterTxStart(h, frame, room)
    case TxAbort => AfterTxAbort(h)
    case TxInterrupt(txif, queueEmpty) => AfterTxInterrupt(h, txif, queueEmpty)
    case Settle => (h.(regs := h.regs.(con := h.regs.con.(opmod := h.regs.con.reqop))), Ok)
    case Send(words) => (h.(regs := h.regs.(queued := h.regs.queued - multiset{words})), Ok)
  }

  /** The calculation a call makes, if it is one that makes one. */
  function CalculationOf(op: HalOp): TimingResult {
    match op
    case Init(cfg, _, _) => TimingFor(cfg.clk, cfg.nominal, cfg.data, SamplePct(cfg.pct))
    case SetBitrate(clk, nominal, data, pct, _, _) => TimingFor(clk, nominal, data, SamplePct(pct))
    case _ => BadArgument
  }

  /** The call passes its checks and asks the module into Configuration mode with new words. */
  predicate Reconfigures(h: Hal, op: HalOp) {
    match op
    case Init(cfg, _, _) => InitRefusal(h, cfg) == Ok
    case SetBitrate(clk, nominal, data, _, _, _) =>
      clk != 0 && nominal != 0 && data != 0 && h.present && h.node.initialized && CalculationOf(op).Good?
    case _ => false
  }

  /** And is let in. */
  predicate LetIn(h: Hal, op: HalOp) {
    Reconfigures(h, op) && (op.Init? || op.SetBitrate?) && Granted(h.regs.con, OPMODE_CONFIG, op.enter)
  }

  /** History: the result of the last call's calculation that was let into Configuration mode, and
      whether a bit-rate change since was not let in. */
  datatype Past = Past(words: Option<Timing>, held: bool)

  function Remember(past: Past, h: Hal, op: HalOp): Past {
    if LetIn(h, op) then Past(if CalculationOf(op).Good? then Some(CalculationOf(op).timing) else None, false)
    else if op.SetBitrate? && Reconfigures(h, op) then past.(held := true)
    else past
  }

  /** The timing words are those of one call, the last one let in; and the module is in the recorded
      mode or in Configuration mode, on its way to whichever it was asked for last. */
  predicate PastInv(h: Hal, past: Past) {
    && (past.words.Some? ==> h.regs.timing == past.words.value)
    && (h.node.initialized ==>
          && past.words.Some?
          && h.regs.con.reqop == (if past.held then OPMODE_CONFIG else ModeCode(h.mode))
          && h.regs.con.opmod in {ModeCode(h.mode), OPMODE_CONFIG})
  }

  predicate QueueConsistent(queued: multiset<seq<u32>>) {
    forall words | words in queued :: |words| >= 2 && ObjectConsistent(words[1])
  }

  predicate NodeInv(h: Hal) {
    && (h.node.initialized <==> h.mode != NoMode)
    && (h.node.initialized ==> h.present && h.regs.con.on)
    && QueueConsistent(h.regs.queued)
  }

  /** armed is history: a tx_start succeeded since the last disable, abort or completion. */
  predicate EventInv(h: Hal, armed: bool) {
    && (h.events.lines.tx <==> armed) && (h.events.ints.tx <==> armed)
    && (h.events.txBusy ==> armed)
    && (h.events.enabled <==> h.events.lines.rx) && (h.events.enabled <==> h.events.lines.gen)
    && (armed ==> h.events.enabled)
    && (h.events.enabled ==> h.present)
  }

  function Armed(armed: bool, op: HalOp, h: Hal): bool {
    var (_, st) := HalNext(h, op);
    if op.TxStart? && st == Ok then true
    else if (op.IsrDisable? || op.TxAbort?) && st == Ok then false
    else if op.TxInterrupt? && st == Ok && op.txif && op.queueEmpty then false
    else armed
  }

  lemma TransmitKeeps(h: Hal, f: Frame, room: Reply)
    requires NodeInv(h)
    ensures NodeInv(AfterTransmit(h, f, room).0)
  {
    if AfterTransmit(h, f, room).1 == Ok {
      EncodedConsistent(f);
      assert Encode(f)[1] == CtrlWord(f);
    }
  }

  lemma InitKeeps(h: Hal, cfg: Config, enter: Reply, leave: Reply)
    requires NodeInv(h)
    ensures NodeInv(AfterInit(h, cfg, enter, leave).0)
  {
    InitOutcome(h, cfg, enter, leave);
  }

  lemma CalculationKeeps(h: Hal, r: TimingResult, enter: Reply, leave: Reply)
    requires NodeInv(h)
    ensures NodeInv(AfterCalculation(h, r, enter, leave).0)
  {}

  lemma SetBitrateKeeps(h: Hal, clk: u32, nominal: u32, data: u32, pct: u8, enter: Reply, leave: Reply)
    requires NodeInv(h)
    ensures NodeInv(AfterSetBitrate(h, clk, nominal, data, pct, enter, leave).0)
  {
    CalculationKeeps(h, TimingFor(clk, nominal, data, SamplePct(pct)), enter, leave);
  }

  lemma TxStartKeeps(h: Hal, f: Frame, room: Reply)
    requires NodeInv(h)
    ensures NodeInv(AfterTxStart(h, f, room).0)
  {
    TransmitKeeps(h, f, room);
  }

  lemma DeinitKeeps(h: Hal, reply: Reply)
    requires NodeInv(h)
    ensures NodeInv(AfterDeinit(h, reply).0)
  {}

  lemma HardwareKeeps(h: Hal, op: HalOp)
    requires NodeInv(h) && (op.Settle? || op.Send?)
    ensures NodeInv(HalNext(h, op).0)
  {}

  lemma EventCallKeeps(h: Hal, op: HalOp)
    requires NodeInv(h) && (op.SetCallback? || op.IsrEnable? || op.IsrDisable? || op.TxAbort? || op.TxInterrupt?)
    ensures NodeInv(HalNext(h, op).0)
  {
    var t := HalNext(h, op).0;
    assert t.node == h.node && t.mode == h.mode && t.present == h.present;
    assert t.regs.con == h.regs.con && t.regs.timing == h.regs.timing && t.regs.queued == h.regs.queued;
  }

  lemma NodeStep(h: Hal, op: HalOp)
    requires NodeInv(h)
    ensures NodeInv(HalNext(h, op).0)
  {
    match op
    case Init(cfg, enter, leave) => InitKeeps(h, cfg, enter, leave);
    case SetBitrate(clk, nominal, data, pct, enter, leave) => SetBitrateKeeps(h, clk, nominal, data, pct, enter, leave);
    case Transmit(frame, room) => TransmitKeeps(h, frame, room);
    case TxStart(frame, room) => TxStartKeeps(h, frame, room);
    case Deinit(reply) => DeinitKeeps(h, reply);
    case Settle => HardwareKeeps(h, op);
    case Send(_) => HardwareKeeps(h, op);
    case _ => EventCallKeeps(h, op);
  }

  lemma EventStep(h: Hal, armed: bool, op: HalOp)
    requires EventInv(h, armed)
    ensures EventInv(HalNext(h, op).0, Armed(armed, op, h))
  {}

  /** Busy is weaker than armed: exactly a second enable of a running node, with a priority that
      exists, forgets an outstanding start. */
  lemma BusyLostByReenable(h: Hal, armed: bool, op: HalOp)
    requires EventInv(h, armed) && (armed ==> h.events.txBusy)
    ensures (Armed(armed, op, h) ==> HalNext(h, op).0.events.txBusy)
            <==> !(op.IsrEnable? && op.priority <= 7 && h.mode != NoMode && armed)
  {}

  function HalRun(h: Hal, ops: seq<HalOp>): Hal
    decreases |ops|
  {
    if ops == [] then h else HalRun(HalNext(h, ops[0]).0, ops[1..])
  }

  lemma RunCons(h: Hal, op: HalOp, rest: seq<HalOp>)
    ensures HalRun(h, [op] + rest) == HalRun(HalNext(h, op).0, rest)
  {
    assert ([op] + rest)[1..] == rest;
  }

  lemma RunOne(h: Hal, op: HalOp)
    ensures HalRun(h, [op]) == HalNext(h, op).0
  {
    assert [op] + [] == [op];
    RunCons(h, op, []);
  }

  lemma {:induction false} HalRunAppend(h: Hal, first: seq<HalOp>, second: seq<HalOp>)
    ensures HalRun(h, first + second) == HalRun(HalRun(h, first), second)
    decreases |first|
  {
    if first == [] {
      assert first + second == second;
    } else {
      assert (first + second)[1..] == first[1..] + second;
      HalRunAppend(HalNext(h, first[0]).0, first[1..], second);
    }
  }

  function ArmedRun(armed: bool, h: Hal, ops: seq<HalOp>): bool
    decreases |ops|
  {
    if ops == [] then armed else ArmedRun(Armed(armed, ops[0], h), HalNext(h, ops[0]).0, ops[1..])
  }

  function PastRun(past: Past, h: Hal, ops: seq<HalOp>): Past
    decreases |ops|
  {
    if ops == [] then past else PastRun(Remember(past, h, ops[0]), HalNext(h, ops[0]).0, ops[1..])
  }

  lemma InitRemembered(h: Hal, past: Past, op: HalOp)
    requires NodeInv(h) && PastInv(h, past) && op.Init?
    ensures PastInv(HalNext(h, op).0, Remember(past, h, op))
  {
    InitOutcome(h, op.cfg, op.enter, op.leave);
    InitWords(h, op.cfg, op.enter, op.leave);
  }

  lemma RetimeRemembered(h: Hal, past: Past, t: Hal, st: Status, words: Timing, enter: Reply, leave: Reply)
    requires PastInv(h, past) && OnlyRetimed(h, t) && RetimeEnds(h, t, st, words, enter, leave)
    ensures PastInv(t, if Granted(h.regs.con, OPMODE_CONFIG, enter) then Past(Some(words), false)
                       else past.(held := true))
  {}

  lemma SetBitrateRemembered(h: Hal, past: Past, op: HalOp)
    requires NodeInv(h) && PastInv(h, past) && op.SetBitrate?
    ensures PastInv(HalNext(h, op).0, Remember(past, h, op))
  {
    var (t, st) := AfterSetBitrate(h, op.clk, op.nominal, op.data, op.pct, op.enter, op.leave);
    var r := CalculationOf(op);
    SetBitrateOutcome(h, op.clk, op.nominal, op.data, op.pct, op.enter, op.leave);
    if Reconfigures(h, op) {
      RetimeRemembered(h, past, t, st, r.timing, op.enter, op.leave);
    } else {
      assert t == h;
    }
  }

  lemma DeinitRemembered(h: Hal, past: Past, op: HalOp)
    requires NodeInv(h) && PastInv(h, past) && (op.Deinit? || op.Settle?)
    ensures PastInv(HalNext(h, op).0, Remember(past, h, op))
  {}

  lemma OthersRemembered(h: Hal, past: Past, op: HalOp)
    requires PastInv(h, past) && !op.Init? && !op.SetBitrate? && !op.Deinit? && !op.Settle?
    ensures PastInv(HalNext(h, op).0, Remember(past, h, op))
  {
    var t := HalNext(h, op).0;
    assert t.regs.timing == h.regs.timing && t.regs.con == h.regs.con && t.node == h.node && t.mode == h.mode;
  }

  lemma PastStep(h: Hal, past: Past, op: HalOp)
    requires NodeInv(h) && PastInv(h, past)
    ensures PastInv(HalNext(h, op).0, Remember(past, h, op))
  {
    if op.Init? {
      InitRemembered(h, past, op);
    } else if op.SetBitrate? {
      SetBitrateRemembered(h, past, op);
    } else if op.Deinit? || op.Settle? {
      DeinitRemembered(h, past, op);
    } else {
      OthersRemembered(h, past, op);
    }
  }

  /** Every run of HAL calls, whatever the hardware answers: initialized exactly when a mode is
      recorded; all three timing words those of the last calculation let into Configuration mode;
      the module in the recorded mode or in Configuration mode; transmit interrupts armed exactly
      since the last successful start that nothing ended; busy only while armed; every queued object
      consistent. */
  lemma {:induction false} EveryHalRun(h: Hal, armed: bool, past: Past, ops: seq<HalOp>)
    requires NodeInv(h) && EventInv(h, armed) && PastInv(h, past)
    ensures NodeInv(HalRun(h, ops)) && EventInv(HalRun(h, ops), ArmedRun(armed, h, ops))
    ensures PastInv(HalRun(h, ops), PastRun(past, h, ops))
    decreases |ops|
  {
    if ops != [] {
      NodeStep(h, ops[0]);
      EventStep(h, armed, ops[0]);
      PastStep(h, past, ops[0]);
      EveryHalRun(HalNext(h, ops[0]).0, Armed(armed, ops[0], h), Remember(past, h, ops[0]), ops[1..]);
    }
  }

  lemma {:induction false} RememberedWasCalculated(past: Past, h: Hal, ops: seq<HalOp>)
    requires PastRun(past, h, ops).words.Some?
    ensures PastRun(past, h, ops).words == past.words
            || exists op | op in ops :: CalculationOf(op) == Good(PastRun(past, h, ops).words.value)
    decreases |ops|
  {
    if ops != [] {
      var next := Remember(past, h, ops[0]);
      RememberedWasCalculated(next, HalNext(h, ops[0]).0, ops[1..]);
      assert ops[0] in ops && forall op | op in ops[1..] :: op in ops;
      if PastRun(past, h, ops).words == next.words && next.words != past.words {
        assert CalculationOf(ops[0]) == Good(next.words.value);
      }
    }
  }

  /** From power-on: whenever the node is initialized, one single call of the run calculated all
      three timing words it holds. */
  lemma WordsOfOneCall(present: bool, regs: Regs, ops: seq<HalOp>)
    ensures var t := HalRun(AtBoot(present, regs), ops);
            t.node.initialized ==> exists op | op in ops :: CalculationOf(op) == Good(t.regs.timing)
  {
    var h := AtBoot(present, regs);
    EveryHalRun(h, false, Past(None, false), ops);
    if HalRun(h, ops).node.initialized {
      RememberedWasCalculated(Past(None, false), h, ops);
    }
  }

  /** TXQCON's interrupt source stays with the arming, but for an init let into Configuration mode
      while a start is outstanding: it clears the source, and completion is never seen. */
  lemma QueueSourceLostByInit(h: Hal, armed: bool, op: HalOp)
    requires EventInv(h, armed) && (armed <==> h.regs.txqeie)
    ensures (Armed(armed, op, h) <==> HalNext(h, op).0.regs.txqeie) <==> !(op.Init? && armed && LetIn(h, op))
  {
    if op.Init? {
      InitWords(h, op.cfg, op.enter, op.leave);
    } else if op.SetBitrate? {
      BitrateTouches(h, op.clk, op.nominal, op.data, op.pct, op.enter, op.leave);
    }
  }

  lemma HeldChange(h: Hal, clk: u32, nominal: u32, data: u32, pct: u8, enter: Reply, leave: Reply)
    requires NodeInv(h) && clk != 0 && nominal != 0 && data != 0 && h.node.initialized
    requires !Granted(h.regs.con, OPMODE_CONFIG, enter)
    ensures var (t, st) := AfterSetBitrate(h, clk, nominal, data, pct, enter, leave);
            TimingFor(clk, nominal, data, SamplePct(pct)).Good? ==>
              && st == Timeout && t.node == h.node && t.mode == h.mode && t.events == h.events
              && t.regs.con.reqop == OPMODE_CONFIG && t.regs.timing == h.regs.timing
  {
    SetBitrateOutcome(h, clk, nominal, data, pct, enter, leave);
  }

  lemma SettleEnds(h: Hal)
    ensures var u := HalNext(h, Settle).0;
            && u.node == h.node && u.mode == h.mode && u.events == h.events
            && u.regs.con.opmod == h.regs.con.reqop && u.regs.timing == h.regs.timing
  {}

  /** A bit-rate change that is not let into Configuration mode, and then answered late, leaves a
      running node with its events as they were, in Configuration mode with the words from before. */
  lemma HeldChangeEndsInConfig(h: Hal, clk: u32, nominal: u32, data: u32, pct: u8, enter: Reply, leave: Reply)
    requires NodeInv(h) && clk != 0 && nominal != 0 && data != 0 && h.node.initialized
    requires !Granted(h.regs.con, OPMODE_CONFIG, enter)
    ensures var u := HalNext(AfterSetBitrate(h, clk, nominal, data, pct, enter, leave).0, Settle).0;
            TimingFor(clk, nominal, data, SamplePct(pct)).Good? ==>
              && u.node.initialized && u.mode == h.mode && u.events == h.events
              && u.regs.con.opmod == OPMODE_CONFIG && u.regs.timing == h.regs.timing
  {
    HeldChange(h, clk, nominal, data, pct, enter, leave);
    SettleEnds(AfterSetBitrate(h, clk, nominal, data, pct, enter, leave).0);
  }

  /** After a disable, only a successful enable turns any CPU line on again. */
  lemma {:induction false} DisabledStaysSilent(h: Hal, ops: seq<HalOp>)
    requires !h.events.enabled && h.events.lines == Lines(false, false, false)
    requires forall op | op in ops :: !op.IsrEnable?
    ensures var t := HalRun(h, ops);
            !t.events.enabled && t.events.lines == Lines(false, false, false)
    decreases |ops|
  {
    if ops != [] {
      assert ops[0] in ops;
      var t := HalNext(h, ops[0]).0;
      assert !t.events.enabled && t.events.lines == Lines(false, false, false);
      DisabledStaysSilent(t, ops[1..]);
    }
  }

  /** The number OPMOD and REQOP show for a mode. */
  predicate ShowsMode(code: nat, mode: Mode) {
    match mode
    case NormalFd => code == 0
    case InternalLoopback => code == 2
    case ListenOnly => code == 3
    case ExternalLoopback => code == 5
    case NormalClassic => code == 6
    case NoMode => code == 4
  }

  /** What a successful init leaves in the registers: on, in the mode, system clock not selected, ISO
      CRC, bit-rate switching as asked for, no event FIFO, transmit queue on; one filter that lets
      every identifier into FIFO 1; four objects of 64 bytes in queue and FIFO; no interrupt source. */
  predicate Configured(r: Regs, cfg: Config) {
    && r.con.on && ShowsMode(r.con.opmod, cfg.mode) && ShowsMode(r.con.reqop, cfg.mode)
    && !r.con.clksel && r.con.isocrc && (r.con.brsdis <==> !cfg.brs) && !r.con.stef && r.con.txqen
    && cfg.msgRam == Some(r.fifoba) && r.filter == Filter(0, 0, 1, true)
    && r.txq == Geometry(7, 3) && r.rx == Geometry(7, 3)
    && !r.txqeie && !r.rxNotEmptyIe && !r.rxOverflowIe
  }

  lemma ModeNumber(mode: Mode)
    ensures ShowsMode(ModeCode(mode), mode)
  {}

  lemma InitRefusals(h: Hal, cfg: Config, r: TimingResult)
    requires r == TimingFor(cfg.clk, cfg.nominal, cfg.data, SamplePct(cfg.pct))
    ensures InitRefusal(h, cfg)
            == if cfg.msgRam.None? || cfg.msgRam.value % 4 != 0 || cfg.msgRamSize < 576 || cfg.mode == NoMode
               then InvalidArg
               else if !h.present then NotPresent
               else if r.BadArgument? then InvalidArg
               else if r.Trapped? then MathTrap
               else Ok
  {}

  lemma BringUpOutcome(h: Hal, cfg: Config, words: Timing, enter: Reply, leave: Reply)
    requires cfg.msgRam.Some? && cfg.mode != NoMode
    ensures var (t, st) := AfterBringUp(h, cfg, words, enter, leave);
            var entered := h.regs.con.opmod == 4 || enter == Follows;
            && t.events == h.events && t.present == h.present && t.regs.queued == h.regs.queued
            && st == (if entered && leave == Follows then Ok else Timeout)
            && (st == Ok ==>
                  && t.node == Node(true, cfg.timeoutMs) && t.mode == cfg.mode
                  && Configured(t.regs, cfg) && t.regs.timing == words)
            && (st == Timeout ==>
                  && t.node == Node(false, cfg.timeoutMs) && t.mode == NoMode && !t.regs.con.on
                  && t.regs.timing == if entered then words else h.regs.timing)
  {
    ModeNumber(cfg.mode);
    assert ModeCode(cfg.mode) != 4;
  }

  /** Every init either succeeds in the requested mode with everything configured, or is refused with
      nothing changed, or times out with the node down, the mode forgotten and the module off; and
      which of these, in the order the checks are made. */
  lemma InitOutcome(h: Hal, cfg: Config, enter: Reply, leave: Reply)
    ensures var (t, st) := AfterInit(h, cfg, enter, leave);
            var r := TimingFor(cfg.clk, cfg.nominal, cfg.data, if cfg.pct == 0 then 80 else cfg.pct);
            var entered := h.regs.con.opmod == 4 || enter == Follows;
            && t.events == h.events && t.present == h.present && t.regs.queued == h.regs.queued
            && st == (if cfg.msgRam.None? || cfg.msgRam.value % 4 != 0 || cfg.msgRamSize < 576 || cfg.mode == NoMode
                      then InvalidArg
                      else if !h.present then NotPresent
                      else if r.BadArgument? then InvalidArg
                      else if r.Trapped? then MathTrap
                      else if entered && leave == Follows then Ok
                      else Timeout)
            && (st == Ok ==>
                  && t.node == Node(true, cfg.timeoutMs) && t.mode == cfg.mode != NoMode
                  && Configured(t.regs, cfg) && r == Good(t.regs.timing)
                  && t.regs.con.opmod == t.regs.con.reqop == ModeCode(cfg.mode))
            && (st == Timeout ==>
                  && t.node == Node(false, cfg.timeoutMs) && t.mode == NoMode && !t.regs.con.on
                  && (if entered then r == Good(t.regs.timing) else t.regs.timing == h.regs.timing))
            && (st != Ok && st != Timeout ==> t == h)
  {
    var t := TimingFor(cfg.clk, cfg.nominal, cfg.data, SamplePct(cfg.pct));
    InitRefusals(h, cfg, t);
    if InitRefusal(h, cfg) == Ok {
      BringUpOutcome(h, cfg, t.timing, enter, leave);
    }
  }

  /** An init that is refused or not let in keeps timing words and transmit queue source; one that is
      let in replaces the words and clears the source. */
  lemma InitWords(h: Hal, cfg: Config, enter: Reply, leave: Reply)
    ensures var t := AfterInit(h, cfg, enter, leave).0;
            if InitRefusal(h, cfg) == Ok && Granted(h.regs.con, OPMODE_CONFIG, enter)
            then TimingFor(cfg.clk, cfg.nominal, cfg.data, SamplePct(cfg.pct)) == Good(t.regs.timing) && !t.regs.txqeie
            else t.regs.timing == h.regs.timing && t.regs.txqeie == h.regs.txqeie
  {}

  /** What a bit-rate change leaves alone. */
  predicate OnlyRetimed(h: Hal, t: Hal) {
    && t.events == h.events && t.mode == h.mode && t.node == h.node && t.present == h.present
    && t.regs == h.regs.(con := h.regs.con.(reqop := t.regs.con.reqop, opmod := t.regs.con.opmod),
                         timing := t.regs.timing)
  }

  /** Where the module and its timing words end up: as they were except for the request, if it does
      not enter Configuration mode; there with the new words, if it does not leave it; otherwise in
      the recorded mode with the new words. */
  predicate RetimeEnds(h: Hal, t: Hal, st: Status, words: Timing, enter: Reply, leave: Reply) {
    var before, after := h.regs, t.regs;
    if before.con.opmod != 4 && enter == Ignores then
      && st == Timeout && after.con.reqop == 4
      && after.con.opmod == before.con.opmod && after.timing == before.timing
    else if leave == Ignores then
      && st == Timeout && after.con.reqop == ModeCode(h.mode)
      && after.con.opmod == 4 && after.timing == words
    else
      st == Ok && after.con.reqop == after.con.opmod == ModeCode(h.mode) && after.timing == words
  }

  lemma RetimeTouches(h: Hal, words: Timing, enter: Reply, leave: Reply)
    ensures OnlyRetimed(h, AfterRetime(h, words, enter, leave).0)
  {}

  lemma RetimeOutcome(h: Hal, words: Timing, enter: Reply, leave: Reply)
    requires h.mode != NoMode
    ensures var (t, st) := AfterRetime(h, words, enter, leave);
            OnlyRetimed(h, t) && RetimeEnds(h, t, st, words, enter, leave)
  {
    RetimeTouches(h, words, enter, leave);
    assert ModeCode(h.mode) != OPMODE_CONFIG;
    if Granted(h.regs.con, OPMODE_CONFIG, enter) {
      var config := AfterRequest(h.regs.con, OPMODE_CONFIG, enter);
      assert config.opmod == 4 && !Granted(config, ModeCode(h.mode), Ignores);
    }
  }

  lemma CalculationOutcome(h: Hal, r: TimingResult, enter: Reply, leave: Reply)
    requires h.mode != NoMode
    ensures var (t, st) := AfterCalculation(h, r, enter, leave);
            && OnlyRetimed(h, t)
            && if r.Good? then RetimeEnds(h, t, st, r.timing, enter, leave)
               else t == h && st == (if r.Trapped? then MathTrap else InvalidArg)
  {
    if r.Good? {
      RetimeOutcome(h, r.timing, enter, leave);
    }
  }

  lemma BitrateTouches(h: Hal, clk: u32, nominal: u32, data: u32, pct: u8, enter: Reply, leave: Reply)
    ensures OnlyRetimed(h, AfterSetBitrate(h, clk, nominal, data, pct, enter, leave).0)
  {
    var r := TimingFor(clk, nominal, data, SamplePct(pct));
    CalculationTouches(h, r, enter, leave);
    var t := AfterSetBitrate(h, clk, nominal, data, pct, enter, leave).0;
    assert t == h || t == AfterCalculation(h, r, enter, leave).0;
  }

  lemma CalculationTouches(h: Hal, r: TimingResult, enter: Reply, leave: Reply)
    ensures OnlyRetimed(h, AfterCalculation(h, r, enter, leave).0)
  {}

  lemma BitrateGuards(h: Hal, clk: u32, nominal: u32, data: u32, r: TimingResult, pct: u8, enter: Reply, leave: Reply)
    requires r == TimingFor(clk, nominal, data, SamplePct(pct))
    ensures AfterSetBitrate(h, clk, nominal, data, pct, enter, leave)
            == if clk == 0 || nominal == 0 || data == 0 then (h, InvalidArg)
               else if !h.present then (h, NotPresent)
               else if !h.node.initialized then (h, NotInitialized)
               else AfterCalculation(h, r, enter, leave)
  {}

  /** A bit-rate change, for every answer of the module: refused with nothing changed, or all three
      words kept, or all three replaced; and where the module ends up. */
  lemma SetBitrateOutcome(h: Hal, clk: u32, nominal: u32, data: u32, pct: u8, enter: Reply, leave: Reply)
    requires NodeInv(h)
    ensures var (t, st) := AfterSetBitrate(h, clk, nominal, data, pct, enter, leave);
            var r := TimingFor(clk, nominal, data, if pct == 0 then 80 else pct);
            && OnlyRetimed(h, t)
            && if clk != 0 && nominal != 0 && data != 0 && h.node.initialized && r.Good?
               then RetimeEnds(h, t, st, r.timing, enter, leave)
               else t == h && st == (if clk == 0 || nominal == 0 || data == 0 then InvalidArg
                                     else if !h.present then NotPresent
                                     else if !h.node.initialized then NotInitialized
                                     else if r.Trapped? then MathTrap
                                     else InvalidArg)
  {
    var r := TimingFor(clk, nominal, data, SamplePct(pct));
    BitrateGuards(h, clk, nominal, data, r, pct, enter, leave);
    if h.node.initialized {
      CalculationOutcome(h, r, enter, leave);
    }
  }

  /** Taking a node down always succeeds on a present instance, turns a running module off even if
      it ignores the request, leaves the event layer alone, and once is enough. */
  lemma DeinitOutcome(h: Hal, reply: Reply, again: Reply)
    requires NodeInv(h)
    ensures var (t, st) := AfterDeinit(h, reply);
            && st == (if h.present then Ok else NotPresent)
            && t.events == h.events && t.regs.timing == h.regs.timing && t.regs.queued == h.regs.queued
            && t.node.timeoutMs == h.node.timeoutMs
            && !t.node.initialized && t.mode == NoMode
            && (h.node.initialized ==> !t.regs.con.on && t.regs.con.reqop == OPMODE_CONFIG)
            && (!h.node.initialized ==> t == h)
            && AfterDeinit(t, again) == (t, st)
  {}

  // ------------------------------------------------------------------------------------
  // What the other calls answer and change
  // ------------------------------------------------------------------------------------

  /** A transmit queues exactly the frame's object, or is refused, in this order. */
  lemma TransmitOutcome(h: Hal, f: Frame, room: Reply)
    ensures var (t, st) := AfterTransmit(h, f, room);
            && st == (if f.len > 64 || (!f.fd && f.len > 8) then InvalidArg
                      else if !h.node.initialized then NotInitialized
                      else if room == Ignores then Timeout
                      else Ok)
            && (st != Ok ==> t == h)
            && (st == Ok ==> t == h.(regs := h.regs.(queued := h.regs.queued + multiset{Encode(f)})))
  {}

  /** Receive sources, receive and general lines on, at the priority asked for or 4; nothing of the
      transmit side but the busy flag. */
  lemma EnableOutcome(h: Hal, priority: nat)
    ensures var (t, st) := AfterEnable(h, priority);
            && st == (if priority > 7 then InvalidArg
                      else if !h.present then NotPresent
                      else if h.mode == NoMode then NotInitialized
                      else Ok)
            && (st != Ok ==> t == h)
            && (st == Ok ==>
                  && t.regs.rxNotEmptyIe && t.regs.rxOverflowIe && t.events.ints.rx && t.events.ints.rxov
                  && t.events.lines == Lines(true, h.events.lines.tx, true) && t.events.enabled && !t.events.txBusy
                  && t.events.priority == (if priority == 0 then 4 else priority)
                  && t.events.cb == h.events.cb && t.events.ints.tx == h.events.ints.tx
                  && t.regs.txqeie == h.regs.txqeie
                  && t.regs.con == h.regs.con && t.regs.timing == h.regs.timing && t.regs.queued == h.regs.queued
                  && t.node == h.node && t.mode == h.mode)
  {}

  /** Everything that could interrupt off; callback, priority and node as they were. */
  lemma DisableOutcome(h: Hal)
    ensures var (t, st) := AfterDisable(h);
            && st == (if h.present then Ok else NotPresent)
            && (st != Ok ==> t == h)
            && (st == Ok ==>
                  && !t.regs.rxNotEmptyIe && !t.regs.rxOverflowIe && !t.regs.txqeie
                  && t.events.ints == IntEnables(false, false, false, false, false)
                  && t.events.lines == Lines(false, false, false) && !t.events.enabled && !t.events.txBusy
                  && t.events.cb == h.events.cb && t.events.priority == h.events.priority
                  && t.regs.con == h.regs.con && t.regs.timing == h.regs.timing && t.regs.queued == h.regs.queued
                  && t.node == h.node && t.mode == h.mode)
  {}

  /** The transmit side alone changed: all of it on, or all of it off. */
  predicate TransmitSide(h: Hal, t: Hal, on: bool) {
    && t.regs.txqeie == on && t.events.ints.tx == on && t.events.lines.tx == on && t.events.txBusy == on
    && t.events.ints == h.events.ints.(tx := on) && t.events.lines == h.events.lines.(tx := on)
    && t.events.cb == h.events.cb && t.events.enabled == h.events.enabled && t.events.priority == h.events.priority
    && t.regs.con == h.regs.con && t.regs.timing == h.regs.timing
    && t.regs.rxNotEmptyIe == h.regs.rxNotEmptyIe && t.regs.rxOverflowIe == h.regs.rxOverflowIe
    && t.node == h.node && t.mode == h.mode && t.present == h.present
  }

  /** An asynchronous start queues the frame and arms; whatever refuses it changes nothing. */
  lemma TxStartOutcome(h: Hal, f: Frame, room: Reply)
    ensures var (t, st) := AfterTxStart(h, f, room);
            && st == (if !h.present then NotPresent
                      else if !h.events.enabled then Sequence
                      else if f.len > 64 || (!f.fd && f.len > 8) then InvalidArg
                      else if !h.node.initialized then NotInitialized
                      else if room == Ignores then Timeout
                      else Ok)
            && (st != Ok ==> t == h)
            && (st == Ok ==> TransmitSide(h, t, true) && t.regs.queued == h.regs.queued + multiset{Encode(f)})
  {}

  /** Abort and completion disarm; completion only with TXIF and an empty queue. */
  lemma TxEndOutcome(h: Hal, txif: bool, queueEmpty: bool)
    ensures var (t, st) := AfterTxAbort(h);
            && st == (if h.present then Ok else NotPresent)
            && (if h.present then TransmitSide(h, t, false) && t.regs.queued == h.regs.queued else t == h)
    ensures var (t, st) := AfterTxInterrupt(h, txif, queueEmpty);
            && st == (if h.present then Ok else NotPresent)
            && (if h.present && txif && queueEmpty then TransmitSide(h, t, false) && t.regs.queued == h.regs.queued
                else t == h)
  {}
}
