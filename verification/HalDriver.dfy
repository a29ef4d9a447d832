/** The HAL as the program runs it: per-instance state arrays, registers changed one access at a
    time, and a ghost log of the accesses that matters for what happens in between. */
module HalDriver {
  import opened Bits
  import opened BitTiming
  import opened FrameCodec
  import opened HalModel
  import opened MessageRam
  import opened TimedWait

  const INST_COUNT := 2
  const TXQ_DEPTH := 4

  datatype Kind = ModeRequest | ConfigWrite | TimingWrite | LinesOn | LinesOff | OtherWrite

  /** One access, with the registers and the event layer as it leaves them. */
  datatype Access = Access(kind: Kind, regs: Regs, events: Events)

  /** What a write of each kind may change: timing words only by a timing write and only in
      Configuration mode, CxCON only by a mode request or a configuration write, geometry, filter
      and message RAM base only by a configuration write. */
  predicate Labelled(kind: Kind, before: Regs, after: Regs) {
    && (after.timing != before.timing ==> kind == TimingWrite)
    && (kind == TimingWrite ==> before.con.opmod == OPMODE_CONFIG)
    && (after.con != before.con ==> kind == ModeRequest || kind == ConfigWrite)
    && (after.fifoba != before.fifoba || after.filter != before.filter
        || after.txq != before.txq || after.rx != before.rx ==>
          kind == ConfigWrite)
  }

  /** A line that is on after an access and was not before was turned on by it. */
  predicate LinesLabelled(kind: Kind, before: Lines, after: Lines) {
    (after.rx && !before.rx) || (after.tx && !before.tx) || (after.gen && !before.gen) ==> kind == LinesOn
  }

  /** Access k of a log follows from the one before it. */
  predicate Succeeds(log: seq<Access>, k: nat)
    requires 0 < k < |log|
  {
    && Labelled(log[k].kind, log[k - 1].regs, log[k].regs)
    && LinesLabelled(log[k].kind, log[k - 1].events.lines, log[k].events.lines)
  }

  predicate Chain(log: seq<Access>) {
    forall k: nat | 0 < k < |log| :: Succeeds(log, k)
  }

  /** The log of an instance: a chain that ends in its present registers and lines. */
  predicate UpToDate(log: seq<Access>, regs: Regs, lines: Lines) {
    log != [] && Chain(log) && log[|log| - 1].regs == regs && log[|log| - 1].events.lines == lines
  }

  lemma ChainGrows(log: seq<Access>, a: Access)
    requires Chain(log) && log != []
    requires Labelled(a.kind, log[|log| - 1].regs, a.regs)
    requires LinesLabelled(a.kind, log[|log| - 1].events.lines, a.events.lines)
    ensures Chain(log + [a])
  {
    var longer := log + [a];
    forall k: nat | 0 < k < |longer| ensures Succeeds(longer, k) {
      if k < |log| {
        assert Succeeds(log, k) && longer[k - 1] == log[k - 1] && longer[k] == log[k];
      }
    }
  }

  /** The answer a wait gets. */
  ghost function ReplyTo(p: Poll, timeout: u32): Reply {
    if InTime(p, timeout) then Follows else Ignores
  }

  /** A request for the mode the module is in already is answered at the first poll. */
  lemma AlreadyThere(p: Poll, q: Poll, there: bool, timeout: u32)
    requires q.hasClock == p.hasClock && q.clock == p.clock
    requires forall k: nat :: q.shows(k) <==> there || p.shows(k)
    ensures InTime(q, timeout) <==> there || InTime(p, timeout)
  {
    assert forall k: nat :: GivesUp(q, k, timeout) == GivesUp(p, k, timeout);
    if there {
      assert ShowsInTime(q, 0, timeout);
    } else if k: nat :| ShowsInTime(q, k, timeout) {
      assert ShowsInTime(p, k, timeout);
    }
    if k: nat :| ShowsInTime(p, k, timeout) {
      assert ShowsInTime(q, k, timeout);
    }
  }

  /** The polling loop of request_mode. */
  method PollMode(there: bool, p: Poll, timeout: u32, ghost reply: Reply) returns (ready: bool)
    requires Ends(p, timeout) && reply == ReplyTo(p, timeout)
    ensures ready <==> there || reply == Follows
  {
    var q := Poll(p.hasClock, p.clock, (k: nat) => there || p.shows(k));
    ghost var horizon: nat :| Decides(p, horizon, timeout);
    assert Decides(q, horizon, timeout);
    AlreadyThere(p, q, there, timeout);
    var k;
    ready, k := Wait(q, timeout, horizon);
  }

  class CanHal {
    const present: seq<bool>
    /** Message RAM of each instance. */
    const ram: seq<array<u32>>
    var node: seq<Node>
    var mode: seq<Mode>
    var regs: seq<Regs>
    var events: seq<Events>
    /** The accesses of each instance, starting from what reset left. */
    ghost var log: seq<seq<Access>>

    constructor (present: seq<bool>, regs: seq<Regs>, ram: seq<array<u32>>)
      requires |present| == |regs| == |ram| == INST_COUNT
      requires ram[0] != ram[1] && ram[0].Length == ram[1].Length == RAM_WORDS
      ensures Valid() && this.ram == ram
      ensures forall i | 0 <= i < INST_COUNT :: Row(i) == AtBoot(present[i], regs[i])
    {
      this.present := present;
      this.ram := ram;
      this.node := [Node(false, 0), Node(false, 0)];
      this.mode := [NoMode, NoMode];
      var r0, r1 := regs[0].(queued := multiset{}), regs[1].(queued := multiset{});
      this.regs := [r0, r1];
      var idle := Events(NoCallback, false, 0, false,
                         IntEnables(false, false, false, false, false), Lines(false, false, false));
      this.events := [idle, idle];
      this.log := [[Access(OtherWrite, r0, idle)], [Access(OtherWrite, r1, idle)]];
    }

    ghost predicate Sized()
      reads this
    {
      && |present| == |node| == |mode| == |regs| == |events| == |log| == |ram| == INST_COUNT
      && ram[0] != ram[1] && ram[0].Length == ram[1].Length == RAM_WORDS
    }

    ghost predicate Valid()
      reads this
    {
      Sized() && forall j: nat | j < INST_COUNT :: UpToDate(log[j], regs[j], events[j].lines)
    }

    ghost function Row(i: nat): Hal
      reads this
      requires Sized() && i < INST_COUNT
    {
      Hal(present[i], node[i], mode[i], regs[i], events[i])
    }

    /** Only the log of instance i grew, by accesses that turned no line on and all saw the event
        layer as e. */
    ghost predicate Grew(before: seq<seq<Access>>, i: nat, e: Events)
      reads this
    {
      && |before| == INST_COUNT && i < INST_COUNT && |log| == INST_COUNT
      && log[1 - i] == before[1 - i] && before[i] <= log[i]
      && forall k | |before[i]| <= k < |log[i]| :: log[i][k].events == e && log[i][k].kind != LinesOn
    }

    /** Only the log of instance i grew, by accesses with this callback in place. */
    ghost predicate GrewWith(before: seq<seq<Access>>, i: nat, cb: Callback)
      reads this
    {
      && |before| == INST_COUNT && i < INST_COUNT && |log| == INST_COUNT
      && log[1 - i] == before[1 - i] && before[i] <= log[i]
      && forall k | |before[i]| <= k < |log[i]| ::
           log[i][k].events.cb == cb && log[i][k].kind in {LinesOn, LinesOff, OtherWrite}
    }

    ghost predicate NoLineOn(before: seq<seq<Access>>, i: nat)
      reads this
    {
      && |before| == INST_COUNT && i < INST_COUNT && |log| == INST_COUNT
      && forall k | |before[i]| <= k < |log[i]| :: log[i][k].kind != LinesOn
    }

    /** Every access of instance i goes through here. */
    method Put(i: nat, r: Regs, kind: Kind)
      requires Valid() && i < INST_COUNT && kind != LinesOn && Labelled(kind, regs[i], r)
      modifies this`regs, this`log
      ensures Valid() && regs == old(regs)[i := r]
      ensures |log| == INST_COUNT && log[i] == old(log)[i] + [Access(kind, r, events[i])]
      ensures log[1 - i] == old(log)[1 - i]
    {
      assert UpToDate(log[i], regs[i], events[i].lines);
      ChainGrows(log[i], Access(kind, r, events[i]));
      regs := regs[i := r];
      log := log[i := log[i] + [Access(kind, r, events[i])]];
    }

    /** A write of the node layer. */
    method Write(i: nat, r: Regs, kind: Kind)
      requires Valid() && i < INST_COUNT && kind != LinesOn && Labelled(kind, regs[i], r)
      modifies this`regs, this`log
      ensures Valid() && Grew(old(log), i, events[i]) && regs == old(regs)[i := r]
    {
      Put(i, r, kind);
    }

    /** A write of CxCON. */
    method WriteCon(i: nat, con: Con, kind: Kind)
      requires Valid() && i < INST_COUNT && (kind == ModeRequest || kind == ConfigWrite)
      modifies this`regs, this`log
      ensures Valid() && Grew(old(log), i, events[i])
      ensures regs == old(regs)[i := old(regs)[i].(con := con)]
    {
      Put(i, regs[i].(con := con), kind);
    }

    /** The two interrupt sources of the receive FIFO. */
    method WriteFifoSources(i: nat, on: bool)
      requires Valid() && i < INST_COUNT
      modifies this`regs, this`log
      ensures Valid() && GrewWith(old(log), i, events[i].cb) && NoLineOn(old(log), i)
      ensures regs == old(regs)[i := old(regs)[i].(rxNotEmptyIe := on, rxOverflowIe := on)]
    {
      Put(i, regs[i].(rxNotEmptyIe := on, rxOverflowIe := on), OtherWrite);
    }

    /** The interrupt source of the transmit queue. */
    method WriteQueueSource(i: nat, on: bool)
      requires Valid() && i < INST_COUNT
      modifies this`regs, this`log
      ensures Valid() && GrewWith(old(log), i, events[i].cb) && NoLineOn(old(log), i)
      ensures regs == old(regs)[i := old(regs)[i].(txqeie := on)]
    {
      Put(i, regs[i].(txqeie := on), OtherWrite);
    }

    /** Every change of CPU lines goes through here. */
    method SetLines(i: nat, lines: Lines, kind: Kind)
      requires Valid() && i < INST_COUNT && (kind == LinesOn || kind == LinesOff)
      requires LinesLabelled(kind, events[i].lines, lines)
      modifies this`events, this`log
      ensures Valid() && events == old(events)[i := old(events)[i].(lines := lines)]
      ensures |log| == INST_COUNT && log[i] == old(log)[i] + [Access(kind, regs[i], events[i])]
      ensures log[1 - i] == old(log)[1 - i]
    {
      assert UpToDate(log[i], regs[i], events[i].lines);
      ChainGrows(log[i], Access(kind, regs[i], events[i].(lines := lines)));
      events := events[i := events[i].(lines := lines)];
      log := log[i := log[i] + [Access(kind, regs[i], events[i])]];
    }

    /** The write of REQOP. */
    method WriteRequest(i: nat, code: nat)
      requires Valid() && i < INST_COUNT
      modifies this`regs, this`log
      ensures Valid() && Grew(old(log), i, events[i])
      ensures regs == old(regs)[i := old(regs)[i].(con := old(regs)[i].con.(reqop := code))]
    {
      WriteCon(i, regs[i].con.(reqop := code), ModeRequest);
    }

    /** The module's own move, if it follows a request made of registers that were as before. */
    method Conclude(i: nat, code: nat, follows: bool, ghost before: seq<Regs>, ghost reply: Reply)
      requires Valid() && i < INST_COUNT == |before| && (follows <==> Granted(before[i].con, code, reply))
      requires regs == before[i := before[i].(con := before[i].con.(reqop := code))]
      modifies this`regs, this`log
      ensures Valid() && Grew(old(log), i, events[i])
      ensures regs == before[i := before[i].(con := AfterRequest(before[i].con, code, reply))]
      ensures follows <==> AfterRequest(before[i].con, code, reply).opmod == code
    {
      if follows && regs[i].con.opmod != code {
        WriteCon(i, regs[i].con.(opmod := code), ModeRequest);
      }
    }

    /** request_mode: write REQOP, then poll OPMOD. p.shows(k) says that the module has followed by
        poll k. */
    method RequestMode(i: nat, code: nat, p: Poll) returns (ok: bool)
      requires Valid() && i < INST_COUNT && Ends(p, node[i].timeoutMs)
      modifies this`regs, this`log
      ensures Valid() && Grew(old(log), i, events[i])
      ensures var con := AfterRequest(old(regs)[i].con, code, ReplyTo(p, node[i].timeoutMs));
              regs == old(regs)[i := old(regs)[i].(con := con)] && (ok <==> con.opmod == code)
      ensures ok <==> old(regs)[i].con.opmod == code || InTime(p, node[i].timeoutMs)
      ensures node[i].timeoutMs == 0 ==> ok
    {
      var timeout := node[i].timeoutMs;
      ghost var reply := ReplyTo(p, timeout);
      if timeout == 0 {
        Untimed(p, timeout);
      }
      WriteRequest(i, code);
      var there := regs[i].con.opmod == code;
      ok := PollMode(there, p, timeout, reply);
      Conclude(i, code, ok, old(regs), reply);
    }

    /** Bit-rate switching is on when its disable bit is clear. */
    method SwitchBitrates(i: nat, brs: bool)
      requires Valid() && i < INST_COUNT
      modifies this`regs, this`log
      ensures Valid() && Grew(old(log), i, events[i])
      ensures regs == old(regs)[i := old(regs)[i].(con := old(regs)[i].con.(brsdis := !brs))]
    {
      if brs {
        WriteCon(i, regs[i].con.(brsdis := false), ConfigWrite);
      } else {
        WriteCon(i, regs[i].con.(brsdis := true), ConfigWrite);
      }
    }

    /** CxCON: clock source and ISO CRC. */
    method ConfigureProtocol(i: nat)
      requires Valid() && i < INST_COUNT
      modifies this`regs, this`log
      ensures Valid() && Grew(old(log), i, events[i])
      ensures regs == old(regs)[i := old(regs)[i].(con := old(regs)[i].con.(clksel := false, isocrc := true))]
    {
      WriteCon(i, regs[i].con.(clksel := false), ConfigWrite);
      WriteCon(i, regs[i].con.(isocrc := true), ConfigWrite);
    }

    /** CxCON: no event FIFO, transmit queue on. */
    method ConfigureQueues(i: nat)
      requires Valid() && i < INST_COUNT
      modifies this`regs, this`log
      ensures Valid() && Grew(old(log), i, events[i])
      ensures regs == old(regs)[i := old(regs)[i].(con := old(regs)[i].con.(stef := false, txqen := true))]
    {
      WriteCon(i, regs[i].con.(stef := false), ConfigWrite);
      WriteCon(i, regs[i].con.(txqen := true), ConfigWrite);
    }

    method ConfigureControl(i: nat, brs: bool)
      requires Valid() && i < INST_COUNT
      modifies this`regs, this`log
      ensures Valid() && Grew(old(log), i, events[i])
      ensures regs == old(regs)[i := old(regs)[i].(con :=
                old(regs)[i].con.(clksel := false, isocrc := true, brsdis := !brs, stef := false, txqen := true))]
    {
      ConfigureProtocol(i);
      SwitchBitrates(i, brs);
      ConfigureQueues(i);
    }

    /** NBTCFG, DBTCFG and TDC, in this order. */
    method WriteTiming(i: nat, t: Timing)
      requires Valid() && i < INST_COUNT && regs[i].con.opmod == OPMODE_CONFIG
      modifies this`regs, this`log
      ensures Valid() && Grew(old(log), i, events[i])
      ensures regs == old(regs)[i := old(regs)[i].(timing := t)]
    {
      Write(i, regs[i].(timing := regs[i].timing.(nbtcfg := t.nbtcfg)), TimingWrite);
      Write(i, regs[i].(timing := regs[i].timing.(dbtcfg := t.dbtcfg)), TimingWrite);
      Write(i, regs[i].(timing := regs[i].timing.(tdc := t.tdc)), TimingWrite);
    }

    /** Message RAM base, transmit queue and FIFO 1 geometry with every interrupt source off. */
    method ConfigureFifos(i: nat, base: nat)
      requires Valid() && i < INST_COUNT
      modifies this`regs, this`log
      ensures Valid() && Grew(old(log), i, events[i])
      ensures regs == old(regs)[i := old(regs)[i].(fifoba := base, txq := GEOMETRY, txqeie := false,
                rx := GEOMETRY, rxNotEmptyIe := false, rxOverflowIe := false)]
    {
      Write(i, regs[i].(fifoba := base), ConfigWrite);
      Write(i, regs[i].(txq := GEOMETRY, txqeie := false), ConfigWrite);
      Write(i, regs[i].(rx := GEOMETRY, rxNotEmptyIe := false, rxOverflowIe := false), ConfigWrite);
    }

    /** Filter 0: every identifier, to FIFO 1. */
    method ConfigureFilter(i: nat)
      requires Valid() && i < INST_COUNT
      modifies this`regs, this`log
      ensures Valid() && Grew(old(log), i, events[i])
      ensures regs == old(regs)[i := old(regs)[i].(filter := ACCEPT_ALL)]
    {
      Write(i, regs[i].(filter := regs[i].filter.(obj := 0)), ConfigWrite);
      Write(i, regs[i].(filter := regs[i].filter.(mask := 0)), ConfigWrite);
      Write(i, regs[i].(filter := regs[i].filter.(fifo := 1, on := true)), ConfigWrite);
    }

    /** Everything nora_canfd_init writes between its two mode requests. */
    method Configure(i: nat, cfg: Config, t: Timing)
      requires Valid() && i < INST_COUNT && cfg.msgRam.Some?
      requires regs[i].con.on && regs[i].con.opmod == regs[i].con.reqop == OPMODE_CONFIG
      modifies this`regs, this`log
      ensures Valid() && Grew(old(log), i, events[i])
      ensures regs == old(regs)[i := ConfiguredRegs(old(regs)[i], cfg, t)]
    {
      ConfigureControl(i, cfg.brs);
      WriteTiming(i, t);
      ConfigureFifos(i, cfg.msgRam.value);
      ConfigureFilter(i);
    }

    /** The checks of nora_canfd_init. */
    method Validate(i: nat, cfg: Config) returns (st: Status, t: TimingResult)
      requires Valid() && i < INST_COUNT
      ensures st == InitRefusal(Row(i), cfg)
      ensures st == Ok ==> t.Good? && t == TimingFor(cfg.clk, cfg.nominal, cfg.data, SamplePct(cfg.pct))
    {
      t := BadArgument;
      if cfg.msgRam.None? {
        return InvalidArg, t;
      }
      if cfg.msgRam.value % 4 != 0 {
        return InvalidArg, t;
      }
      if cfg.msgRamSize < MSG_RAM_BYTES {
        return InvalidArg, t;
      }
      if cfg.mode == NoMode {
        return InvalidArg, t;
      }
      if !present[i] {
        return NotPresent, t;
      }
      var samplePct := if cfg.pct != 0 then cfg.pct else DEFAULT_SAMPLE_PCT;
      t := CalcBitTiming(cfg.clk, cfg.nominal, cfg.data, samplePct);
      match t {
        case BadArgument => return InvalidArg, t;
        case Trapped => return MathTrap, t;
        case Good(_) => return Ok, t;
      }
    }

    /** A mode request of nora_canfd_init: a module that does not follow is turned off again. */
    method RequestOrTurnOff(i: nat, code: nat, p: Poll) returns (ok: bool)
      requires Valid() && i < INST_COUNT && Ends(p, node[i].timeoutMs)
      modifies this`regs, this`log
      ensures Valid() && Grew(old(log), i, events[i])
      ensures ok <==> Granted(old(regs)[i].con, code, ReplyTo(p, node[i].timeoutMs))
      ensures var con := AfterRequest(old(regs)[i].con, code, ReplyTo(p, node[i].timeoutMs));
              regs == old(regs)[i := old(regs)[i].(con := if ok then con else con.(on := false))]
    {
      ok := RequestMode(i, code, p);
      if !ok {
        WriteCon(i, regs[i].con.(on := false), ModeRequest);
      }
    }

    /** nora_canfd_init's way into Configuration mode: everything that says the node is up goes first. */
    method EnterConfig(i: nat, timeoutMs: u32, enter: Poll) returns (ok: bool)
      requires Valid() && i < INST_COUNT && Ends(enter, timeoutMs)
      modifies this`node, this`mode, this`regs, this`log
      ensures Valid() && Grew(old(log), i, events[i])
      ensures node == old(node)[i := Node(false, timeoutMs)] && mode == old(mode)[i := NoMode]
      ensures ok <==> Granted(old(regs)[i].con, OPMODE_CONFIG, ReplyTo(enter, timeoutMs))
      ensures var con := AfterRequest(old(regs)[i].con, OPMODE_CONFIG, ReplyTo(enter, timeoutMs));
              regs == old(regs)[i := old(regs)[i].(con := con.(on := ok))]
    {
      node := node[i := Node(false, timeoutMs)];
      mode := mode[i := NoMode];
      WriteCon(i, regs[i].con.(on := true), ModeRequest);
      ok := RequestOrTurnOff(i, OPMODE_CONFIG, enter);
    }

    /** The rest of nora_canfd_init: down first, through Configuration mode, up at the very end. */
    method BringUp(i: nat, cfg: Config, t: Timing, enter: Poll, leave: Poll) returns (st: Status)
      requires Valid() && i < INST_COUNT && cfg.msgRam.Some?
      requires Ends(enter, cfg.timeoutMs) && Ends(leave, cfg.timeoutMs)
      modifies this`node, this`mode, this`regs, this`log
      ensures Valid() && Grew(old(log), i, events[i])
      ensures (Row(i), st) == AfterBringUp(old(Row(i)), cfg, t,
                                           ReplyTo(enter, cfg.timeoutMs), ReplyTo(leave, cfg.timeoutMs))
      ensures forall j | 0 <= j < INST_COUNT && j != i :: Row(j) == old(Row(j))
    {
      var ok := EnterConfig(i, cfg.timeoutMs, enter);
      if !ok {
        return Timeout;
      }
      Configure(i, cfg, t);
      ok := RequestOrTurnOff(i, ModeCode(cfg.mode), leave);
      if !ok {
        return Timeout;
      }
      mode := mode[i := cfg.mode];
      node := node[i := node[i].(initialized := true)];
      return Ok;
    }

    method Init(i: nat, cfg: Config, enter: Poll, leave: Poll) returns (st: Status)
      requires Valid() && i < INST_COUNT
      requires InitRefusal(Row(i), cfg) == Ok ==> Ends(enter, cfg.timeoutMs) && Ends(leave, cfg.timeoutMs)
      modifies this`node, this`mode, this`regs, this`log
      ensures Valid() && Grew(old(log), i, events[i])
      ensures (Row(i), st) == AfterInit(old(Row(i)), cfg, ReplyTo(enter, cfg.timeoutMs), ReplyTo(leave, cfg.timeoutMs))
      ensures cfg.timeoutMs == 0 ==> st != Timeout
      ensures !present[i] ==> log == old(log)
      ensures forall j | 0 <= j < INST_COUNT && j != i :: Row(j) == old(Row(j))
    {
      var t;
      st, t := Validate(i, cfg);
      if st == Ok {
        if cfg.timeoutMs == 0 {
          Untimed(enter, cfg.timeoutMs);
          Untimed(leave, cfg.timeoutMs);
        }
        st := BringUp(i, cfg, t.timing, enter, leave);
      }
    }

    /** The rest of nora_canfd_set_bitrate: into Configuration mode, write, back. */
    method Retime(i: nat, t: Timing, enter: Poll, leave: Poll) returns (st: Status)
      requires Valid() && i < INST_COUNT && Ends(enter, node[i].timeoutMs) && Ends(leave, node[i].timeoutMs)
      modifies this`regs, this`log
      ensures Valid() && Grew(old(log), i, events[i])
      ensures (Row(i), st) == AfterRetime(old(Row(i)), t,
                                          ReplyTo(enter, node[i].timeoutMs), ReplyTo(leave, node[i].timeoutMs))
      ensures forall j | 0 <= j < INST_COUNT && j != i :: Row(j) == old(Row(j))
    {
      var previous := mode[i];
      var ok := RequestMode(i, OPMODE_CONFIG, enter);
      if !ok {
        return Timeout;
      }
      WriteTiming(i, t);
      ok := RequestMode(i, ModeCode(previous), leave);
      if !ok {
        return Timeout;
      }
      return Ok;
    }

    method SetBitrate(i: nat, clk: u32, nominal: u32, data: u32, pct: u8, enter: Poll, leave: Poll) returns (st: Status)
      requires Valid() && i < INST_COUNT
      requires node[i].initialized ==> Ends(enter, node[i].timeoutMs) && Ends(leave, node[i].timeoutMs)
      modifies this`regs, this`log
      ensures Valid() && Grew(old(log), i, events[i])
      ensures (Row(i), st) == AfterSetBitrate(old(Row(i)), clk, nominal, data, pct,
                                              ReplyTo(enter, node[i].timeoutMs), ReplyTo(leave, node[i].timeoutMs))
      ensures node[i].timeoutMs == 0 ==> st != Timeout
      ensures forall j | 0 <= j < INST_COUNT && j != i :: Row(j) == old(Row(j))
    {
      if clk == 0 || nominal == 0 || data == 0 {
        return InvalidArg;
      }
      if !present[i] {
        return NotPresent;
      }
      if !node[i].initialized {
        return NotInitialized;
      }
      var samplePct := if pct != 0 then pct else DEFAULT_SAMPLE_PCT;
      var t := CalcBitTiming(clk, nominal, data, samplePct);
      match t {
        case BadArgument => return InvalidArg;
        case Trapped => return MathTrap;
        case Good(_) =>
      }
      if node[i].timeoutMs == 0 {
        Untimed(enter, node[i].timeoutMs);
        Untimed(leave, node[i].timeoutMs);
      }
      st := Retime(i, t.timing, enter, leave);
    }

    method Deinit(i: nat, p: Poll) returns (st: Status)
      requires Valid() && i < INST_COUNT
      requires present[i] && mode[i] != NoMode ==> Ends(p, node[i].timeoutMs)
      modifies this`node, this`mode, this`regs, this`log
      ensures Valid() && Grew(old(log), i, events[i])
      ensures (Row(i), st) == AfterDeinit(old(Row(i)), ReplyTo(p, old(node)[i].timeoutMs))
      ensures !present[i] ==> log == old(log)
      ensures forall j | 0 <= j < INST_COUNT && j != i :: Row(j) == old(Row(j))
    {
      if !present[i] {
        return NotPresent;
      }
      if mode[i] == NoMode {
        node := node[i := node[i].(initialized := false)];
        return Ok;
      }
      var _ := RequestMode(i, OPMODE_CONFIG, p);
      WriteCon(i, regs[i].con.(on := false), ModeRequest);
      node := node[i := node[i].(initialized := false)];
      mode := mode[i := NoMode];
      return Ok;
    }

    /** nora_canfd_transmit: room.shows(k) says that the queue has room at poll k, and slot is the
        object its address register points at. The queued words are those then found there. */
    method Transmit(i: nat, f: Frame, room: Poll, slot: nat) returns (st: Status)
      requires Valid() && i < INST_COUNT && slot < TXQ_DEPTH
      requires node[i].initialized ==> Ends(room, node[i].timeoutMs)
      modifies this`regs, this`log, ram[i]
      ensures Valid() && Grew(old(log), i, events[i])
      ensures (Row(i), st) == AfterTransmit(old(Row(i)), f, ReplyTo(room, node[i].timeoutMs))
      ensures node[i].timeoutMs == 0 ==> st != Timeout
      ensures forall j | 0 <= j < INST_COUNT && j != i :: Row(j) == old(Row(j))
      ensures st == Ok ==>
                && f.len <= PAYLOAD_BYTES && Encode(f) <= ObjectAt(ram[i][..], slot)
                && IsControlWord(ObjectAt(ram[i][..], slot)[1], f.len, f.extended, f.fd, f.brs)
      ensures forall other | 0 <= other < OBJECTS && (st != Ok || other != slot) ::
                ObjectAt(ram[i][..], other) == old(ObjectAt(ram[i][..], other))
    {
      if f.len > PAYLOAD_BYTES {
        return InvalidArg;
      }
      if !f.fd && f.len > 8 {
        return InvalidArg;
      }
      if !node[i].initialized {
        return NotInitialized;
      }
      ghost var horizon: nat :| Decides(room, horizon, node[i].timeoutMs);
      var ready, _ := Wait(room, node[i].timeoutMs, horizon);
      if !ready {
        return Timeout;
      }
      Commit(i, f, slot);
      CtrlWordIs(f);
      assert Encode(f)[1] == CtrlWord(f);
      return Ok;
    }

    /** Its end: the object written, then handed to the queue. */
    method Commit(i: nat, f: Frame, slot: nat)
      requires Valid() && i < INST_COUNT && slot < TXQ_DEPTH && f.len <= PAYLOAD_BYTES
      modifies this`regs, this`log, ram[i]
      ensures Valid() && Grew(old(log), i, events[i])
      ensures regs == old(regs)[i := old(regs)[i].(queued := old(regs)[i].queued + multiset{Encode(f)})]
      ensures Encode(f) <= ObjectAt(ram[i][..], slot)
      ensures forall other | 0 <= other < OBJECTS && other != slot ::
                ObjectAt(ram[i][..], other) == old(ObjectAt(ram[i][..], other))
    {
      WriteObject(ram[i], slot, f);
      var words := ram[i][slot * OBJECT_WORDS..slot * OBJECT_WORDS + 2 + PayloadWords(WireLen(f.len))];
      assert words == ObjectAt(ram[i][..], slot)[..|Encode(f)|] == Encode(f);
      Put(i, regs[i].(queued := regs[i].queued + multiset{words}), OtherWrite);
    }

    method SetCallback(i: nat, cb: Callback)
      requires Valid() && i < INST_COUNT
      modifies this`events
      ensures Valid() && Row(i) == AfterSetCallback(old(Row(i)), cb)
      ensures forall j | 0 <= j < INST_COUNT && j != i :: Row(j) == old(Row(j))
    {
      events := events[i := events[i].(cb := cb)];
    }

    method IsrEnable(i: nat, priority: nat) returns (st: Status)
      requires Valid() && i < INST_COUNT
      modifies this`regs, this`events, this`log
      ensures Valid() && GrewWith(old(log), i, events[i].cb)
      ensures (Row(i), st) == AfterEnable(old(Row(i)), priority)
      ensures forall j | 0 <= j < INST_COUNT && j != i :: Row(j) == old(Row(j))
    {
      var p := priority;
      if p == 0 {
        p := DEFAULT_PRIORITY;
      }
      if p > 7 {
        return InvalidArg;
      }
      if !present[i] {
        return NotPresent;
      }
      if mode[i] == NoMode {
        return NotInitialized;
      }
      WriteFifoSources(i, true);
      events := events[i := events[i].(ints := events[i].ints.(rx := true, rxov := true))];
      events := events[i := events[i].(txBusy := false)];
      LineEnable(i, p);
      events := events[i := events[i].(enabled := true)];
      return Ok;
    }

    method LineEnable(i: nat, priority: nat)
      requires Valid() && i < INST_COUNT
      modifies this`events, this`log
      ensures Valid() && GrewWith(old(log), i, events[i].cb)
      ensures events == old(events)[i := old(events)[i].(priority := priority,
                lines := old(events)[i].lines.(rx := true, gen := true))]
    {
      events := events[i := events[i].(priority := priority)];
      SetLines(i, events[i].lines.(rx := true), LinesOn);
      SetLines(i, events[i].lines.(gen := true), LinesOn);
    }

    /** No line goes on in here. */
    method IsrDisable(i: nat) returns (st: Status)
      requires Valid() && i < INST_COUNT
      modifies this`regs, this`events, this`log
      ensures Valid() && GrewWith(old(log), i, events[i].cb)
      ensures NoLineOn(old(log), i)
      ensures (Row(i), st) == AfterDisable(old(Row(i)))
      ensures forall j | 0 <= j < INST_COUNT && j != i :: Row(j) == old(Row(j))
    {
      if !present[i] {
        return NotPresent;
      }
      events := events[i := events[i].(enabled := false)];
      SetLines(i, Lines(false, false, false), LinesOff);
      events := events[i := events[i].(ints := IntEnables(false, false, false, false, false))];
      WriteFifoSources(i, false);
      WriteQueueSource(i, false);
      events := events[i := events[i].(txBusy := false)];
      return Ok;
    }

    method TxStart(i: nat, f: Frame, room: Poll, slot: nat) returns (st: Status)
      requires Valid() && i < INST_COUNT && slot < TXQ_DEPTH
      requires events[i].enabled && node[i].initialized ==> Ends(room, node[i].timeoutMs)
      modifies this`regs, this`events, this`log, ram[i]
      ensures Valid() && log[1 - i] == old(log)[1 - i] && old(log)[i] <= log[i]
      ensures (Row(i), st) == AfterTxStart(old(Row(i)), f, ReplyTo(room, node[i].timeoutMs))
      ensures st == Ok ==>
                && f.len <= PAYLOAD_BYTES && Encode(f) <= ObjectAt(ram[i][..], slot)
                && IsControlWord(ObjectAt(ram[i][..], slot)[1], f.len, f.extended, f.fd, f.brs)
      ensures forall other | 0 <= other < OBJECTS && (st != Ok || other != slot) ::
                ObjectAt(ram[i][..], other) == old(ObjectAt(ram[i][..], other))
      ensures node[i].timeoutMs == 0 ==> st != Timeout
      ensures forall j | 0 <= j < INST_COUNT && j != i :: Row(j) == old(Row(j))
    {
      if !present[i] {
        return NotPresent;
      }
      if !events[i].enabled {
        return Sequence;
      }
      st := Transmit(i, f, room, slot);
      if st != Ok {
        return st;
      }
      events := events[i := events[i].(txBusy := true)];
      WriteQueueSource(i, true);
      events := events[i := events[i].(ints := events[i].ints.(tx := true))];
      SetLines(i, events[i].lines.(tx := true), LinesOn);
      return Ok;
    }

    /** The disarming tx_abort and the completion path share. */
    method Disarm(i: nat)
      requires Valid() && i < INST_COUNT
      modifies this`regs, this`events, this`log
      ensures Valid() && GrewWith(old(log), i, events[i].cb)
      ensures NoLineOn(old(log), i)
      ensures Row(i) == Arm(old(Row(i)), false)
      ensures forall j | 0 <= j < INST_COUNT && j != i :: Row(j) == old(Row(j))
    {
      WriteQueueSource(i, false);
      events := events[i := events[i].(ints := events[i].ints.(tx := false))];
      SetLines(i, events[i].lines.(tx := false), LinesOff);
      events := events[i := events[i].(txBusy := false)];
    }

    method TxAbort(i: nat) returns (st: Status)
      requires Valid() && i < INST_COUNT
      modifies this`regs, this`events, this`log
      ensures Valid() && GrewWith(old(log), i, events[i].cb)
      ensures NoLineOn(old(log), i)
      ensures (Row(i), st) == AfterTxAbort(old(Row(i)))
      ensures forall j | 0 <= j < INST_COUNT && j != i :: Row(j) == old(Row(j))
    {
      if !present[i] {
        return NotPresent;
      }
      Disarm(i);
      return Ok;
    }

    /** The transmit part of nora_canfd_irq_handler. */
    method TxInterrupt(i: nat, txif: bool, queueEmpty: bool) returns (st: Status)
      requires Valid() && i < INST_COUNT
      modifies this`regs, this`events, this`log
      ensures Valid() && GrewWith(old(log), i, events[i].cb)
      ensures (Row(i), st) == AfterTxInterrupt(old(Row(i)), txif, queueEmpty)
      ensures forall j | 0 <= j < INST_COUNT && j != i :: Row(j) == old(Row(j))
    {
      if !present[i] {
        return NotPresent;
      }
      if txif && queueEmpty {
        Disarm(i);
      }
      return Ok;
    }

    /** The module follows a request after the wait for it was given up. */
    method LateAnswer(i: nat)
      requires Valid() && i < INST_COUNT
      modifies this`regs, this`log
      ensures Valid() && Row(i) == HalNext(old(Row(i)), Settle).0
      ensures forall j | 0 <= j < INST_COUNT && j != i :: Row(j) == old(Row(j))
    {
      WriteCon(i, regs[i].con.(opmod := regs[i].con.reqop), ModeRequest);
    }
  }

  /** In the log of any instance, whatever was called: every timing write, and every access at which
    a timing word changes, happens in Configuration mode. */
  lemma TimingOnlyInConfig(hal: CanHal, i: nat, k: nat)
    requires hal.Valid() && i < INST_COUNT && 0 < k < |hal.log[i]|
    requires hal.log[i][k].kind == TimingWrite || hal.log[i][k].regs.timing != hal.log[i][k - 1].regs.timing
    ensures hal.log[i][k - 1].regs.con.opmod == hal.log[i][k].regs.con.opmod == OPMODE_CONFIG
  {
    assert Chain(hal.log[i]) by {
      assert UpToDate(hal.log[i], hal.regs[i], hal.events[i].lines);
    }
    assert Succeeds(hal.log[i], k);
  }
}
