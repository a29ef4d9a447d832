/** The CMSIS driver as the program runs it: one context per instance over the shared HAL, every
    call written out step by step and proved to have the net effect CmsisModel gives it. */
module CmsisDriver {
  import opened Bits
  import opened BitTiming
  import opened FrameCodec
  import opened HalModel
  import opened HalDriver
  import opened CmsisModel
  import opened MessageRam
  import opened TimedWait

  const ALL_LINES_OFF := Lines(false, false, false)

  /** While the module moves through Configuration mode nothing can interrupt, and no callback is
      registered; the callback is this instance's own before any line is on. The log's own rules say
      that CxCON, geometry, filter and timing words change by no other kind of access, and that no
      other kind turns a line on. */
  predicate Quiet(a: Access, i: nat) {
    && (a.kind in {ModeRequest, ConfigWrite, TimingWrite} ==>
          a.events.cb == NoCallback && a.events.lines == ALL_LINES_OFF)
    && (a.kind == LinesOn ==> a.events.cb == CanHalEvent(i))
  }

  predicate AllQuiet(accesses: seq<Access>, from: nat, i: nat) {
    forall k | from <= k < |accesses| :: Quiet(accesses[k], i)
  }

  /** What the waits of one call meet. */
  datatype Polls = Polls(enter: Poll, leave: Poll, rollback: Poll)

  ghost predicate AllEnd(p: Polls, timeout: u32) {
    Ends(p.enter, timeout) && Ends(p.leave, timeout) && Ends(p.rollback, timeout)
  }

  ghost function Answers(p: Polls, timeout: u32): Replies {
    Replies(ReplyTo(p.enter, timeout), ReplyTo(p.leave, timeout), ReplyTo(p.rollback, timeout))
  }

  function Given(data: array?<u8>): Option<seq<u8>>
    reads data
  {
    if data == null then None else Some(data[..])
  }

  class Driver {
    var ctx: seq<Context>
    const hal: CanHal

    /** The contexts as their initialisers leave them, over a HAL nothing has used yet. */
    constructor (ctx: seq<Context>, hal: CanHal)
      requires |ctx| == INST_COUNT && hal.Valid()
      requires forall i | 0 <= i < INST_COUNT ::
                 !ctx[i].initialized && !ctx[i].powered && ctx[i].mode == NormalFd && ctx[i].rx.Valid()
      requires forall i | 0 <= i < INST_COUNT :: exists regs :: hal.Row(i) == AtBoot(hal.present[i], regs)
      ensures Valid() && this.ctx == ctx && this.hal == hal
      ensures forall i | 0 <= i < INST_COUNT :: Inv(State(i)) && PastInv(hal.Row(i), Past(None, false))
    {
      this.ctx := ctx;
      this.hal := hal;
    }

    ghost predicate Valid()
      reads this, hal
    {
      |ctx| == INST_COUNT && hal.Valid()
    }

    /** Only this instance was accessed, and quietly. */
    ghost predicate QuietOnly(before: seq<seq<Access>>, i: nat)
      reads hal
      requires |before| == INST_COUNT && i < INST_COUNT
    {
      && |hal.log| == INST_COUNT && hal.log[1 - i] == before[1 - i]
      && before[i] <= hal.log[i] && AllQuiet(hal.log[i], |before[i]|, i)
    }

    ghost function State(i: nat): Instance
      reads this, hal
      requires Valid() && i < INST_COUNT
    {
      Instance(i, ctx[i], hal.Row(i))
    }

    /** Events off, callback gone. */
    method Quiesce(i: nat)
      requires Valid() && i < INST_COUNT
      modifies hal
      ensures Valid() && hal.Row(i) == Quiesced(old(hal.Row(i)))
      ensures QuietOnly(old(hal.log), i)
      ensures forall j | 0 <= j < INST_COUNT && j != i :: hal.Row(j) == old(hal.Row(j))
    {
      var _ := hal.IsrDisable(i);
      hal.SetCallback(i, NoCallback);
    }

    /** nora_canfd_deinit while the instance is quiesced. */
    method TakeDown(i: nat, p: Poll) returns (st: Status)
      requires Valid() && i < INST_COUNT
      requires hal.present[i] && hal.mode[i] != NoMode ==> Ends(p, hal.node[i].timeoutMs)
      requires hal.present[i] ==> hal.events[i].cb == NoCallback && hal.events[i].lines == ALL_LINES_OFF
      modifies hal
      ensures Valid() && (hal.Row(i), st) == AfterDeinit(old(hal.Row(i)), ReplyTo(p, old(hal.node)[i].timeoutMs))
      ensures QuietOnly(old(hal.log), i)
      ensures forall j | 0 <= j < INST_COUNT && j != i :: hal.Row(j) == old(hal.Row(j))
    {
      st := hal.Deinit(i, p);
    }

    /** can_apply_init after a successful init: callback, then lines; a refusal undoes both. */
    method GoLive(i: nat, rollback: Poll) returns (st: Status)
      requires Valid() && i < INST_COUNT
      requires ctx[i].priority > 7 ==> Ends(rollback, hal.node[i].timeoutMs)
      requires hal.events[i].cb == NoCallback && hal.events[i].lines == ALL_LINES_OFF
      modifies hal
      ensures Valid()
      ensures var (live, answer) := AfterEnable(AfterSetCallback(old(hal.Row(i)), CanHalEvent(i)), ctx[i].priority);
              && st == answer
              && hal.Row(i) == if st == Ok then live
                               else AfterDeinit(old(hal.Row(i)), ReplyTo(rollback, old(hal.node)[i].timeoutMs)).0
      ensures QuietOnly(old(hal.log), i)
      ensures forall j | 0 <= j < INST_COUNT && j != i :: hal.Row(j) == old(hal.Row(j))
    {
      hal.SetCallback(i, CanHalEvent(i));
      st := hal.IsrEnable(i, ctx[i].priority);
      if st != Ok {
        hal.SetCallback(i, NoCallback);
        var _ := TakeDown(i, rollback);
      }
    }

    /** can_apply_init's first half: quiesce, then init with the context's settings. */
    method Reinit(i: nat, mode: Mode, p: Polls) returns (st: Status)
      requires Valid() && i < INST_COUNT && AllEnd(p, ctx[i].timeoutMs)
      modifies hal
      ensures Valid() && QuietOnly(old(hal.log), i)
      ensures var t := ctx[i].timeoutMs;
              (hal.Row(i), st) == AfterInit(Quiesced(old(hal.Row(i))), ConfigOf(ctx[i], mode),
                                            ReplyTo(p.enter, t), ReplyTo(p.leave, t))
      ensures forall j | 0 <= j < INST_COUNT && j != i :: hal.Row(j) == old(hal.Row(j))
    {
      Quiesce(i);
      var c := ctx[i];
      var cfg := Config(c.clk, c.nominal, c.data, c.pct, c.fdMode != 0, mode, c.timeoutMs,
                        Some(c.msgRam), MSG_RAM_BYTES);
      st := hal.Init(i, cfg, p.enter, p.leave);
    }

    /** can_apply_init. */
    method ApplyInit(i: nat, mode: Mode, p: Polls) returns (rc: int)
      requires Valid() && i < INST_COUNT && AllEnd(p, ctx[i].timeoutMs)
      modifies this, hal
      ensures Valid() && (State(i), rc) == AfterApply(old(State(i)), mode, Answers(p, old(ctx)[i].timeoutMs))
      ensures QuietOnly(old(hal.log), i)
      ensures forall j | 0 <= j < INST_COUNT && j != i :: State(j) == old(State(j))
    {
      var st := Reinit(i, mode, p);
      if st != Ok {
        return ToArm(st);
      }
      st := GoLive(i, p.rollback);
      if st != Ok {
        return ToArm(st);
      }
      ctx := ctx[i := ctx[i].(mode := mode)];
      return ARM_DRIVER_OK;
    }

    method Initialize(i: nat, cbUnit: bool, cbObject: bool) returns (rc: int)
      requires Valid() && i < INST_COUNT
      modifies this
      ensures Valid() && (State(i), rc) == AfterInitialize(old(State(i)), cbUnit, cbObject)
      ensures forall j | 0 <= j < INST_COUNT && j != i :: State(j) == old(State(j))
    {
      if !ctx[i].enabled {
        return ARM_DRIVER_ERROR_UNSUPPORTED;
      }
      ctx := ctx[i := ctx[i].(cbUnit := cbUnit)];
      ctx := ctx[i := ctx[i].(cbObject := cbObject)];
      ctx := ctx[i := ctx[i].(powered := false)];
      ctx := ctx[i := ctx[i].(initialized := true)];
      return ARM_DRIVER_OK;
    }

    method ClearRing(i: nat)
      requires Valid() && i < INST_COUNT
      modifies this
      ensures Valid() && State(i) == old(State(i)).(ctx := WithEmptyRing(old(State(i))).ctx)
      ensures forall j | 0 <= j < INST_COUNT && j != i :: State(j) == old(State(j))
    {
      ctx := ctx[i := ctx[i].(rx := ctx[i].rx.(head := 0))];
      ctx := ctx[i := ctx[i].(rx := ctx[i].rx.(tail := 0))];
    }

    method PowerUp(i: nat, p: Polls) returns (rc: int)
      requires Valid() && i < INST_COUNT && ctx[i].initialized && (!ctx[i].powered ==> AllEnd(p, ctx[i].timeoutMs))
      modifies this, hal
      ensures Valid() && (State(i), rc) == AfterPower(old(State(i)), PowerFull, Answers(p, old(ctx)[i].timeoutMs))
      ensures QuietOnly(old(hal.log), i)
      ensures forall j | 0 <= j < INST_COUNT && j != i :: State(j) == old(State(j))
    {
      if ctx[i].powered {
        return ARM_DRIVER_OK;
      }
      ClearRing(i);
      rc := ApplyInit(i, NormalMode(ctx[i].fdMode), p);
      if rc != ARM_DRIVER_OK {
        return rc;
      }
      ctx := ctx[i := ctx[i].(powered := true)];
    }

    method PowerDown(i: nat, p: Polls) returns (rc: int)
      requires Valid() && i < INST_COUNT && ctx[i].initialized
      requires ctx[i].powered ==> Ends(p.enter, hal.node[i].timeoutMs)
      modifies this, hal
      ensures Valid() && (State(i), rc) == AfterPower(old(State(i)), PowerOff, Answers(p, old(hal.node)[i].timeoutMs))
      ensures QuietOnly(old(hal.log), i)
      ensures forall j | 0 <= j < INST_COUNT && j != i :: State(j) == old(State(j))
    {
      if ctx[i].powered {
        Quiesce(i);
        var _ := TakeDown(i, p.enter);
      }
      ctx := ctx[i := ctx[i].(powered := false)];
      return ARM_DRIVER_OK;
    }

    /** The timeout in force: a node that goes down waits by its own, one that comes up by the
        context's. */
    function TimeoutFor(i: nat, state: PowerState): u32
      reads this, hal
      requires |ctx| == INST_COUNT && |hal.node| == INST_COUNT && i < INST_COUNT
    {
      if state == PowerOff then hal.node[i].timeoutMs else ctx[i].timeoutMs
    }

    /** Power changes, quiet at every access in between. */
    method PowerControl(i: nat, state: PowerState, p: Polls) returns (rc: int)
      requires Valid() && i < INST_COUNT
      requires ctx[i].initialized && !ctx[i].powered && state == PowerFull ==> AllEnd(p, ctx[i].timeoutMs)
      requires ctx[i].initialized && ctx[i].powered && state == PowerOff ==> Ends(p.enter, hal.node[i].timeoutMs)
      modifies this, hal
      ensures Valid() && (State(i), rc) == AfterPower(old(State(i)), state, Answers(p, old(TimeoutFor(i, state))))
      ensures QuietOnly(old(hal.log), i)
      ensures forall j | 0 <= j < INST_COUNT && j != i :: State(j) == old(State(j))
    {
      if !ctx[i].initialized {
        return ARM_DRIVER_ERROR;
      }
      match state {
        case PowerFull => rc := PowerUp(i, p);
        case PowerOff => rc := PowerDown(i, p);
        case PowerLow => rc := ARM_DRIVER_ERROR_UNSUPPORTED;
        case PowerOther => rc := ARM_DRIVER_ERROR_PARAMETER;
      }
    }

    method Uninitialize(i: nat, p: Polls) returns (rc: int)
      requires Valid() && i < INST_COUNT
      requires ctx[i].initialized && ctx[i].powered ==> Ends(p.enter, hal.node[i].timeoutMs)
      modifies this, hal
      ensures Valid() && (State(i), rc) == AfterUninitialize(old(State(i)), Answers(p, old(hal.node)[i].timeoutMs))
      ensures QuietOnly(old(hal.log), i)
      ensures forall j | 0 <= j < INST_COUNT && j != i :: State(j) == old(State(j))
    {
      if ctx[i].powered {
        var _ := PowerControl(i, PowerOff, p);
      }
      ctx := ctx[i := ctx[i].(cbUnit := false)];
      ctx := ctx[i := ctx[i].(cbObject := false)];
      ctx := ctx[i := ctx[i].(initialized := false)];
      return ARM_DRIVER_OK;
    }

    /** The cached sample point, from the segment fields if there are any. */
    method CacheSamplePoint(i: nat, segments: u32)
      requires Valid() && i < INST_COUNT
      modifies this
      ensures Valid() && ctx == old(ctx)[i := old(ctx)[i].(pct := PctFrom(old(ctx)[i].pct, segments))]
    {
      if segments != 0 {
        var s := SegmentsOf(segments);
        var tq := 1 + s.prop + s.ph1 + s.ph2;
        if s.ph2 != 0 && tq > 1 {
          ctx := ctx[i := ctx[i].(pct := PercentOf(s.prop, s.ph1, s.ph2))];
        }
      }
    }

    method SetBitrate(i: nat, select: BitrateSelect, rate: u32, segments: u32, p: Polls) returns (rc: int)
      requires Valid() && i < INST_COUNT
      requires ctx[i].powered && hal.node[i].initialized ==>
                 Ends(p.enter, hal.node[i].timeoutMs) && Ends(p.leave, hal.node[i].timeoutMs)
      modifies this, hal
      ensures Valid() && (State(i), rc) == AfterCmsisBitrate(old(State(i)), select, rate, segments,
                                                          Answers(p, old(hal.node)[i].timeoutMs))
      ensures forall j | 0 <= j < INST_COUNT && j != i :: State(j) == old(State(j))
    {
      if rate == 0 {
        return ARM_DRIVER_ERROR_PARAMETER;
      }
      CacheSamplePoint(i, segments);
      match select {
        case Nominal => ctx := ctx[i := ctx[i].(nominal := rate)];
        case FdData => ctx := ctx[i := ctx[i].(data := rate)];
        case OtherSelect => return ARM_DRIVER_ERROR_PARAMETER;
      }
      if !ctx[i].powered {
        return ARM_DRIVER_OK;
      }
      var c := ctx[i];
      var st := hal.SetBitrate(i, c.clk, c.nominal, c.data, c.pct, p.enter, p.leave);
      return ToArm(st);
    }

    method SetMode(i: nat, mode: ArmMode, p: Polls) returns (rc: int)
      requires Valid() && i < INST_COUNT
      requires ctx[i].initialized && ctx[i].powered ==> AllEnd(p, ctx[i].timeoutMs)
      modifies this, hal
      ensures Valid() && (State(i), rc) == AfterSetMode(old(State(i)), mode, Answers(p, old(ctx)[i].timeoutMs))
      ensures QuietOnly(old(hal.log), i)
      ensures forall j | 0 <= j < INST_COUNT && j != i :: State(j) == old(State(j))
    {
      if !ctx[i].initialized {
        return ARM_DRIVER_ERROR;
      }
      if mode == Initialization {
        return ARM_DRIVER_OK;
      }
      var target: Mode;
      match mode {
        case Normal => target := NormalMode(ctx[i].fdMode);
        case Monitor => target := ListenOnly;
        case LoopbackInternal => target := InternalLoopback;
        case LoopbackExternal => target := ExternalLoopback;
        case _ => return ARM_DRIVER_ERROR_UNSUPPORTED;
      }
      if !ctx[i].powered {
        return ARM_DRIVER_ERROR;
      }
      if target == ctx[i].mode {
        return ARM_DRIVER_OK;
      }
      rc := ApplyInit(i, target, p);
    }

    method Control(i: nat, control: Control, arg: nat, p: Polls) returns (rc: int)
      requires Valid() && i < INST_COUNT
      requires ctx[i].initialized && ctx[i].powered && control == SetFdMode ==> AllEnd(p, ctx[i].timeoutMs)
      modifies this, hal
      ensures Valid() && (State(i), rc) == AfterControl(old(State(i)), control, arg, Answers(p, old(ctx)[i].timeoutMs))
      ensures QuietOnly(old(hal.log), i)
      ensures forall j | 0 <= j < INST_COUNT && j != i :: State(j) == old(State(j))
    {
      if !ctx[i].initialized {
        return ARM_DRIVER_ERROR;
      }
      match control {
        case SetFdMode =>
          if arg != 0 && arg != 1 {
            return ARM_DRIVER_ERROR_PARAMETER;
          }
          ctx := ctx[i := ctx[i].(fdMode := if arg != 0 then 1 else 0)];
          if ctx[i].powered {
            var m := ctx[i].mode;
            if m == NormalFd || m == NormalClassic {
              m := NormalMode(ctx[i].fdMode);
            }
            rc := ApplyInit(i, m, p);
            return rc;
          }
          return ARM_DRIVER_OK;
        case AbortMessageSend =>
          if !ctx[i].powered {
            return ARM_DRIVER_ERROR;
          }
          if arg != CAN_OBJ_TX {
            return ARM_DRIVER_ERROR_PARAMETER;
          }
          var st := hal.TxAbort(i);
          return ToArm(st);
        case OtherControl => return ARM_DRIVER_ERROR_UNSUPPORTED;
      }
    }

    /** MessageSend's copy loop, into a local buffer nothing initialised. */
    method CopyIn(data: array?<u8>, size: u8) returns (payload: Payload)
      requires size <= PAYLOAD_BYTES && (size > 0 ==> data != null) && (data != null ==> size <= data.Length)
      ensures payload[..size] == SentBytes(Given(data), size)
    {
      var buffer := new u8[PAYLOAD_BYTES];
      var k := 0;
      while k < size
        invariant k <= size
        invariant forall j | 0 <= j < k :: buffer[j] == data[j]
      {
        buffer[k] := data[k];
        k := k + 1;
      }
      payload := buffer[..];
    }

    /** The net effect does not depend on what the local buffer held before; only the transmit object
        the queue points at is written. */
    method MessageSend(i: nat, objIdx: nat, info: Option<MsgInfo>, data: array?<u8>, size: u8, room: Poll, slot: nat)
      returns (rc: int)
      requires Valid() && i < INST_COUNT && (data != null ==> size <= data.Length)
      requires ctx[i].powered && hal.node[i].initialized ==> Ends(room, hal.node[i].timeoutMs)
      requires slot < TXQ_DEPTH
      modifies hal, hal.ram[i]
      ensures Valid()
      ensures forall stale: Payload ::
                (State(i), rc) == AfterSend(old(State(i)), objIdx, info, old(Given(data)), size, stale,
                                            ReplyTo(room, old(hal.node)[i].timeoutMs))
      ensures forall j | 0 <= j < INST_COUNT && j != i :: State(j) == old(State(j))
      ensures rc >= 0 ==>
                && info.Some? && size <= PAYLOAD_BYTES
                && IsControlWord(ObjectAt(hal.ram[i][..], slot)[1], size, info.value.id >= 0x8000_0000,
                                 info.value.edl, info.value.brs)
                && forall stale: Payload ::
                     Encode(SendFrame(info.value, SentBytes(old(Given(data)), size), stale))
                     <= ObjectAt(hal.ram[i][..], slot)
      ensures forall other | 0 <= other < OBJECTS && (rc < 0 || other != slot) ::
                ObjectAt(hal.ram[i][..], other) == old(ObjectAt(hal.ram[i][..], other))
    {
      if !ctx[i].powered {
        return ARM_DRIVER_ERROR;
      }
      if info.None? || objIdx != CAN_OBJ_TX || size > 64 || (size > 0 && data == null) {
        return ARM_DRIVER_ERROR_PARAMETER;
      }
      if info.value.rtr {
        return ARM_DRIVER_ERROR_UNSUPPORTED;
      }
      if ctx[i].fdMode == 0 && (info.value.edl || size > 8) {
        return ARM_DRIVER_ERROR_UNSUPPORTED;
      }
      var payload := CopyIn(data, size);
      rc := Queue(i, info.value, payload, size, room, slot);
    }

    /** MessageSend's second half: the HAL frame, and its transmission. */
    method Queue(i: nat, info: MsgInfo, payload: Payload, size: u8, room: Poll, slot: nat) returns (rc: int)
      requires Valid() && i < INST_COUNT && size <= PAYLOAD_BYTES
      requires (hal.node[i].initialized ==> Ends(room, hal.node[i].timeoutMs)) && slot < TXQ_DEPTH
      modifies hal, hal.ram[i]
      ensures Valid()
      ensures forall stale: Payload ::
                var (h, st) := AfterTransmit(old(hal.Row(i)), SendFrame(info, payload[..size], stale),
                                             ReplyTo(room, old(hal.node)[i].timeoutMs));
                hal.Row(i) == h && rc == if st != Ok then ToArm(st) else size
      ensures forall j | 0 <= j < INST_COUNT && j != i :: hal.Row(j) == old(hal.Row(j))
      ensures rc >= 0 ==>
                IsControlWord(ObjectAt(hal.ram[i][..], slot)[1], size, info.id >= 0x8000_0000, info.edl, info.brs)
      ensures rc >= 0 ==>
                forall stale: Payload ::
                  Encode(SendFrame(info, payload[..size], stale)) <= ObjectAt(hal.ram[i][..], slot)
      ensures forall other | 0 <= other < OBJECTS && (rc < 0 || other != slot) ::
                ObjectAt(hal.ram[i][..], other) == old(ObjectAt(hal.ram[i][..], other))
    {
      ghost var reply := ReplyTo(room, hal.node[i].timeoutMs);
      CmsisIs();
      HalIdIs(info.id, CMSIS_ID);
      var frame := Frame(HalId(info.id), IsExtended(info.id), info.edl, info.brs, size, payload);
      forall stale: Payload
        ensures AfterTransmit(hal.Row(i), frame, reply)
                == AfterTransmit(hal.Row(i), SendFrame(info, payload[..size], stale), reply)
      {
        StaleIsLost(hal.Row(i), frame, info, payload[..size], stale, reply);
      }
      var st := hal.Transmit(i, frame, room, slot);
      if st != Ok {
        return ToArm(st);
      }
      forall stale: Payload ensures Encode(SendFrame(info, payload[..size], stale)) == Encode(frame) {
        SendFrameEncodes(frame, info, payload[..size], stale);
      }
      return size;
    }
  }

  lemma SendFrameEncodes(frame: Frame, info: MsgInfo, bytes: seq<u8>, stale: Payload)
    requires |bytes| <= PAYLOAD_BYTES && frame.data[..|bytes|] == bytes
    requires frame.id == HalId(info.id) && frame.extended == IsExtended(info.id)
    requires frame.fd == info.edl && frame.brs == info.brs && frame.len == |bytes|
    ensures Encode(SendFrame(info, bytes, stale)) == Encode(frame)
  {
    var sent := SendFrame(info, bytes, stale);
    assert sent.data[..|bytes|] == bytes;
    EncodeIgnoresStale(frame, sent);
  }

  lemma StaleIsLost(h: Hal, frame: Frame, info: MsgInfo, bytes: seq<u8>, stale: Payload, room: Reply)
    requires |bytes| <= PAYLOAD_BYTES && frame.data[..|bytes|] == bytes
    requires frame.id == HalId(info.id) && frame.extended == IsExtended(info.id)
    requires frame.fd == info.edl && frame.brs == info.brs && frame.len == |bytes|
    ensures AfterTransmit(h, frame, room) == AfterTransmit(h, SendFrame(info, bytes, stale), room)
  {
    SendFrameEncodes(frame, info, bytes, stale);
  }
}
