/** The receive path as the driver writes it: the interrupt handler with its drain loop, and
    MessageRead, over the ring array. Every execution is a run of the step system. */
module RxPath {
  import opened Bits
  import opened FrameCodec
  import opened MessageRam
  import opened RxRing
  import opened RxPipeline

  type MsgObject = s: seq<u32> | |s| == OBJECT_WORDS witness seq(OBJECT_WORDS, _ => 0)

  function Blank(): Payload {
    seq(PAYLOAD_BYTES, _ => 0)
  }

  function Flag01(b: bool): nat {
    if b then 1 else 0
  }

  /** The cells of a frame that mean anything: buffer bytes past the length read as zero. */
  function ImageOf(f: Frame): Image {
    [f.id, Flag01(f.extended), Flag01(f.fd), Flag01(f.brs), f.len]
    + seq(PAYLOAD_BYTES, i requires 0 <= i < PAYLOAD_BYTES => if i < f.len then f.data[i] else 0)
  }

  /** Frames with the same image give the application the same answer. */
  lemma ImageDetermines(f: Frame, g: Frame)
    requires ImageOf(f) == ImageOf(g) && f.len <= PAYLOAD_BYTES
    ensures f.id == g.id && f.extended == g.extended && f.fd == g.fd && f.brs == g.brs && f.len == g.len
    ensures f.data[..f.len] == g.data[..g.len]
  {
    assert ImageOf(f)[0] == ImageOf(g)[0] && ImageOf(f)[1] == ImageOf(g)[1] && ImageOf(f)[2] == ImageOf(g)[2];
    assert ImageOf(f)[3] == ImageOf(g)[3] && ImageOf(f)[4] == ImageOf(g)[4];
    forall i | 0 <= i < f.len ensures f.data[i] == g.data[i] {
      assert ImageOf(f)[5 + i] == ImageOf(g)[5 + i];
    }
  }

  /** An object's image does not depend on the buffer it is decoded into. */
  lemma ImageOfDecoded(words: MsgObject, stale: Payload)
    ensures ImageOf(Decode(words, stale)) == ImageOf(Decode(words, Blank()))
  {}

  function ObjectImage(words: MsgObject): Image {
    ImageOf(Decode(words, Blank()))
  }

  // ------------------------------------------------------------------------------------
  // Reachability
  // ------------------------------------------------------------------------------------

  ghost predicate Reaches(s: State, t: State)
    requires Shape(s)
  {
    exists actions: seq<Action> :: Run(s, actions) == t
  }

  lemma ReachesSelf(s: State)
    requires Shape(s)
    ensures Reaches(s, s)
  {
    assert Run(s, []) == s;
  }

  lemma ReachesNext(s: State, t: State, a: Action)
    requires Shape(s) && Reaches(s, t)
    ensures Shape(t) && Reaches(s, Next(t, a))
  {
    var actions :| Run(s, actions) == t;
    RunAppend(s, actions, [a]);
    assert [a][1..] == [];
    assert Run(t, [a]) == Next(t, a);
  }

  lemma ReachesTrans(s: State, t: State, u: State)
    requires Shape(s) && Shape(t) && Reaches(s, t) && Reaches(t, u)
    ensures Reaches(s, u)
  {
    var first :| Run(s, first) == t;
    var second :| Run(t, second) == u;
    RunAppend(s, first, second);
  }

  function Popped(s: State): State
    requires Shape(s)
  {
    s.(ring := s.ring.Pop(), frames := s.frames.(delivered := s.frames.delivered + [s.ring.slots[s.ring.tail]]))
  }

  /** Arrivals and handler steps alone lead from s to t. */
  ghost predicate Serves(s: State, t: State)
    requires Shape(s)
  {
    exists actions: seq<Action> :: ThreadStep !in actions && Run(s, actions) == t
  }

  lemma ServesSelf(s: State)
    requires Shape(s)
    ensures Serves(s, s)
  {
    assert Run(s, []) == s;
  }

  lemma ServesNext(s: State, t: State, a: Action)
    requires Shape(s) && Serves(s, t) && a != ThreadStep
    ensures Shape(t) && Serves(s, Next(t, a))
  {
    var actions :| ThreadStep !in actions && Run(s, actions) == t;
    RunAppend(s, actions, [a]);
    assert [a][1..] == [];
    assert Run(t, [a]) == Next(t, a);
    assert ThreadStep !in actions + [a];
  }

  lemma ServesTrans(s: State, t: State, u: State)
    requires Shape(s) && Shape(t) && Serves(s, t) && Serves(t, u)
    ensures Serves(s, u)
  {
    var first :| ThreadStep !in first && Run(s, first) == t;
    var second :| ThreadStep !in second && Run(t, second) == u;
    RunAppend(s, first, second);
    assert ThreadStep !in first + second;
  }

  lemma ServesReaches(s: State, t: State)
    requires Shape(s) && Serves(s, t)
    ensures Shape(t) && Reaches(s, t)
  {}

  /** The thread's own state, what it was handed, and the oldest frame of the ring. */
  predicate HeadKept(s: State, t: State)
    requires Shape(s) && Shape(t)
  {
    && t.thread == s.thread && t.frames.delivered == s.frames.delivered && t.ring.tail == s.ring.tail
    && (!s.ring.Empty() ==> !t.ring.Empty() && t.ring.slots[t.ring.tail] == s.ring.slots[s.ring.tail])
  }

  lemma {:induction false} RunKeepsHead(s: State, actions: seq<Action>)
    requires Shape(s) && ThreadStep !in actions
    ensures HeadKept(s, Run(s, actions))
    decreases |actions|
  {
    if actions != [] {
      assert actions[0] in actions;
      assert HeadKept(s, Next(s, actions[0]));
      RunKeepsHead(Next(s, actions[0]), actions[1..]);
    }
  }

  lemma ServesKeepsHead(s: State, t: State)
    requires Shape(s) && Serves(s, t)
    ensures Shape(t) && HeadKept(s, t)
  {
    var actions :| ThreadStep !in actions && Run(s, actions) == t;
    RunKeepsHead(s, actions);
  }

  /** What every reachable state satisfies. */
  ghost predicate Sound(s: State) {
    Shape(s) && Conserved(s) && Untorn(s)
  }

  lemma ReachesSound(s: State, t: State)
    requires Sound(s) && Reaches(s, t)
    ensures Sound(t)
  {
    var actions :| Run(s, actions) == t;
    EveryRunConserves(s, actions);
  }

  /** A frame handed to the application is a frame that arrived, unaltered, and was not lost. */
  lemma DeliveredArrived(s: State, x: Item)
    requires Sound(s) && x in s.frames.delivered
    ensures x.no < |s.frames.arrived| && x.no !in s.frames.lost && x.image == s.frames.arrived[x.no]
  {
    SurvivorsBounded(s.frames.arrived, s.frames.lost);
    assert x in Pipe(s);
  }

  function Events(signals: seq<Signal>): seq<Event> {
    seq(|signals|, i requires 0 <= i < |signals| => signals[i].event)
  }

  /** The handler, the thread and the ring are where they were. */
  ghost predicate SamePlace(s: State, t: State) {
    t.isr == s.isr && t.thread == s.thread && t.locals == s.locals && t.ring == s.ring
  }

  /** What can happen between two steps of the thread. */
  datatype Happening = Arriving(objects: seq<MsgObject>) | Interrupt(late: seq<seq<MsgObject>>)

  /** The structure holds the cells copied so far. */
  predicate Holds(f: FrameBuffer, c: seq<nat>)
    reads f, f.data
    requires f.Valid()
  {
    && |c| <= CELLS
    && (|c| > 0 ==> f.id == c[0])
    && (|c| > 1 ==> Flag01(f.extended) == c[1])
    && (|c| > 2 ==> Flag01(f.fd) == c[2])
    && (|c| > 3 ==> Flag01(f.brs) == c[3])
    && (|c| > 4 ==> f.len == c[4])
    && forall i | 5 <= i < |c| :: c[i] == if i - 5 < f.len then f.data[i - 5] else 0
  }

  lemma HoldsAll(f: FrameBuffer, c: seq<nat>)
    requires f.Valid() && Holds(f, c) && |c| == CELLS
    ensures c == ImageOf(f.Value())
  {}

  /** The structure copy's next cell, from the slot the earlier ones came from. */
  method CopyField(slot: Frame, f: FrameBuffer, ghost c: seq<nat>, k: nat)
    requires f.Valid() && k == |c| < CELLS && Holds(f, c)
    requires forall i | 0 <= i < |c| :: c[i] == ImageOf(slot)[i]
    modifies f, f.data
    ensures Holds(f, c + [ImageOf(slot)[|c|]])
  {
    if k == 0 {
      f.id := slot.id;
    } else if k == 1 {
      f.extended := slot.extended;
    } else if k == 2 {
      f.fd := slot.fd;
    } else if k == 3 {
      f.brs := slot.brs;
    } else if k == 4 {
      f.len := slot.len;
    } else {
      f.data[k - 5] := slot.data[k - 5];
      assert c[4] == ImageOf(slot)[4];
    }
  }

  // ------------------------------------------------------------------------------------
  // The driver's state
  // ------------------------------------------------------------------------------------

  class Receiver {
    const ring: array<Frame>
    var head: nat
    var tail: nat
    /** Objects in the hardware FIFO, and its overflow flag. */
    var fifo: seq<MsgObject>
    var rxovif: bool
    /** Whether an object callback is registered, and what it was told. */
    const objectCallback: bool
    var raised: seq<Event>
    /** The state of the step system this object is in. */
    ghost var sys: State

    ghost predicate InSync()
      reads this, ring
    {
      && ring.Length == RING_LEN
      && Shape(sys) && HandlerAhead(sys)
      && sys.ring.head == head && sys.ring.tail == tail
      && (forall k | 0 <= k < RING_LEN :: sys.ring.slots[k].image == ImageOf(ring[k]) && ring[k].len <= PAYLOAD_BYTES)
      && FifoMirrored(fifo, sys.fifo)
      && sys.rxovif == rxovif
      && (objectCallback ==> raised == Events(sys.told.signals))
    }

    ghost predicate FifoMirrored(objects: seq<MsgObject>, items: seq<Item>) {
      |objects| == |items| && forall k | 0 <= k < |objects| :: items[k].image == ObjectImage(objects[k])
    }

    ghost predicate Valid()
      reads this, ring
    {
      InSync() && sys.isr == Off && sys.thread == Outside && Sound(sys)
    }

    constructor (callback: bool)
      ensures Valid() && Initial(sys) && fresh(ring) && objectCallback == callback
    {
      var empty := Frame(0, false, false, false, 0, Blank());
      ring := new Frame[RING_LEN](_ => empty);
      head, tail, fifo, rxovif, raised := 0, 0, [], false, [];
      objectCallback := callback;
      sys := State([], false, Ring(seq(RING_LEN, _ => Item(0, ImageOf(empty))), 0, 0), Outside, Off,
                   Locals(false, false, false, false, 0), Frames([], {}, []), Told([], [], {}, 0));
    }

    /** A frame arriving from the wire: stored while the FIFO has room, else dropped and flagged. */
    method ArriveOne(words: MsgObject)
      requires InSync()
      modifies this`fifo, this`rxovif, this`sys
      ensures InSync() && sys == Next(old(sys), Arrive(ObjectImage(words))) && SamePlace(old(sys), sys)
      ensures fifo == if |old(fifo)| < FIFO_DEPTH then old(fifo) + [words] else old(fifo)
    {
      if |fifo| < FIFO_DEPTH {
        fifo := fifo + [words];
      } else {
        rxovif := true;
      }
      sys := Next(sys, Arrive(ObjectImage(words)));
    }

    /** Frames arriving one after the other. */
    method Elapse(objects: seq<MsgObject>)
      requires InSync()
      modifies this`fifo, this`rxovif, this`sys
      ensures InSync() && Serves(old(sys), sys) && SamePlace(old(sys), sys) && old(fifo) <= fifo
    {
      ghost var s0 := sys;
      ServesSelf(s0);
      var i := 0;
      while i < |objects|
        invariant i <= |objects|
        invariant InSync() && Serves(s0, sys) && SamePlace(s0, sys) && old(fifo) <= fifo
      {
        ServesNext(s0, sys, Arrive(ObjectImage(objects[i])));
        ArriveOne(objects[i]);
        i := i + 1;
      }
    }

    /** One moment between two steps of the handler. */
    method Pause(ghost s0: State, late: seq<seq<MsgObject>>, k: nat) returns (k': nat)
      requires InSync() && k <= |late| && Shape(s0) && Serves(s0, sys)
      modifies this`fifo, this`rxovif, this`sys
      ensures InSync() && Serves(s0, sys) && SamePlace(old(sys), sys)
      ensures k <= k' <= |late| && (k < |late| ==> k < k') && (k == |late| ==> fifo == old(fifo) && sys == old(sys))
      ensures old(fifo) <= fifo
    {
      if k < |late| {
        ghost var s1 := sys;
        Elapse(late[k]);
        ServesTrans(s0, s1, sys);
        k' := k + 1;
      } else {
        k' := k;
      }
    }

    /** The drain loop's test. */
    method TestFifo(ghost s0: State) returns (more: bool)
      requires InSync() && sys.isr == Test && Shape(s0) && Serves(s0, sys)
      modifies this`sys
      ensures InSync() && sys == Next(old(sys), IsrStep) && Serves(s0, sys) && more == (fifo != [])
      ensures sys.isr == if more then Wait else TellReceive
      ensures sys.locals == old(sys).locals && sys.thread == old(sys).thread
    {
      ServesNext(s0, sys, IsrStep);
      more := fifo != [];
      sys := Next(sys, IsrStep);
    }

    /** The wait of nora_canfd_receive: the FIFO is not empty at its first poll. */
    method Fetch(ghost s0: State) returns (words: MsgObject)
      requires InSync() && sys.isr == Wait && Shape(s0) && Serves(s0, sys)
      modifies this`sys
      ensures InSync() && sys == Next(old(sys), IsrStep) && Serves(s0, sys)
      ensures sys.isr.Fetched? && fifo != [] && words == fifo[0]
    {
      ServesNext(s0, sys, IsrStep);
      words := fifo[0];
      sys := Next(sys, IsrStep);
    }

    /** Its end: the object is released to the FIFO. */
    method Release(ghost s0: State, ghost f: Frame, ghost stale: Payload)
      requires InSync() && sys.isr.Fetched? && fifo != [] && f == Decode(fifo[0], stale)
      requires Shape(s0) && Serves(s0, sys)
      modifies this`fifo, this`sys
      ensures InSync() && sys == Next(old(sys), IsrStep) && Serves(s0, sys)
      ensures sys.isr.Released? && sys.isr.item.image == ImageOf(f) && fifo == old(fifo)[1..]
    {
      ServesNext(s0, sys, IsrStep);
      ImageOfDecoded(fifo[0], stale);
      sys := Next(sys, IsrStep);
      fifo := fifo[1..];
    }

    /** nora_canfd_receive, from the wait to the release of the object. */
    method Receive(ghost s0: State, frame: FrameBuffer, late: seq<seq<MsgObject>>, k: nat) returns (k': nat)
      requires InSync() && sys.isr == Wait && k <= |late| && frame.Valid() && Shape(s0) && Serves(s0, sys)
      modifies this`fifo, this`rxovif, this`sys, frame, frame.data
      ensures InSync() && Serves(s0, sys)
      ensures sys.isr.Released? && sys.isr.item.image == ImageOf(frame.Value()) && frame.len <= PAYLOAD_BYTES
      ensures sys.thread == old(sys.thread) && sys.locals == old(sys.locals)
      ensures k <= k' <= |late| && (k < |late| ==> k < k')
      ensures k == |late| ==> |fifo| < |old(fifo)| && sys == AfterIsr(AfterIsr(old(sys)))
    {
      k' := Pause(s0, late, k);
      var words := Fetch(s0);
      k' := Pause(s0, late, k');
      ReadAndRelease(s0, frame, words);
    }

    /** The object read into the frame and handed back to the FIFO. */
    method ReadAndRelease(ghost s0: State, frame: FrameBuffer, words: MsgObject)
      requires InSync() && sys.isr.Fetched? && fifo != [] && words == fifo[0] && frame.Valid()
      requires Shape(s0) && Serves(s0, sys)
      modifies this`fifo, this`sys, frame, frame.data
      ensures InSync() && sys == Next(old(sys), IsrStep) && Serves(s0, sys) && fifo == old(fifo)[1..]
      ensures sys.isr.Released? && sys.isr.item.image == ImageOf(frame.Value()) && frame.len <= PAYLOAD_BYTES
    {
      ghost var stale := frame.data[..];
      frame.ReadObject(words);
      Release(s0, frame.Value(), stale);
    }

    /** The end of one round of the drain loop: into the ring, or dropped. */
    method Store(f: Frame) returns (stored: bool)
      requires InSync() && sys.isr.Released? && sys.isr.item.image == ImageOf(f) && f.len <= PAYLOAD_BYTES
      modifies this`head, this`sys, ring
      ensures InSync() && sys == Next(old(sys), IsrStep)
      ensures stored == !old(sys).ring.Full()
    {
      var nh := (head + 1) % RING_LEN;
      sys := Next(sys, IsrStep);
      if nh != tail {
        ring[head] := f;
        head := nh;
        stored := true;
      } else {
        stored := false;
      }
    }

    /** One round of can_hal_event's drain loop, past the test. */
    method Round(ghost s0: State, f: FrameBuffer, late: seq<seq<MsgObject>>, k: nat) returns (stored: bool, k': nat)
      requires InSync() && sys.isr == Wait && k <= |late| && f.Valid() && Shape(s0) && Serves(s0, sys)
      modifies this`fifo, this`rxovif, this`sys, this`head, ring, f, f.data
      ensures InSync() && Serves(s0, sys) && sys.isr == Test && sys.thread == old(sys).thread
      ensures sys.locals == if stored then old(sys).locals.(received := true) else old(sys).locals.(dropped := true)
      ensures k <= k' <= |late| && (k < |late| ==> k < k')
      ensures k == |late| ==> |fifo| < |old(fifo)| && sys == AfterIsr(AfterIsr(AfterIsr(old(sys))))
    {
      k' := Receive(s0, f, late, k);
      k' := Pause(s0, late, k');
      ServesNext(s0, sys, IsrStep);
      stored := Store(f.Value());
    }

    /** The drain loop's test and, if a frame is there, its round. */
    method Turn(ghost s0: State, f: FrameBuffer, late: seq<seq<MsgObject>>, k: nat)
      returns (more: bool, stored: bool, k': nat)
      requires InSync() && sys.isr == Test && k <= |late| && f.Valid() && Shape(s0) && Serves(s0, sys)
      modifies this`fifo, this`rxovif, this`sys, this`head, ring, f, f.data
      ensures InSync() && Serves(s0, sys) && sys.thread == old(sys).thread && k <= k' <= |late|
      ensures more ==>
                && sys.isr == Test && (k < |late| ==> k < k')
                && sys.locals == (if stored then old(sys).locals.(received := true)
                                  else old(sys).locals.(dropped := true))
                && (k == |late| ==> |fifo| < |old(fifo)| && Drain(sys, []) == Drain(old(sys), []))
      ensures !more ==>
                && sys.isr == TellReceive && fifo == [] && sys.locals == old(sys).locals
                && (k == |late| ==> sys == Drain(old(sys), []))
    {
      stored := false;
      k' := Pause(s0, late, k);
      DrainUnfold(sys);
      if fifo != [] {
        RoundUnfold(sys);
      }
      more := TestFifo(s0);
      if more {
        stored, k' := Round(s0, f, late, k');
      }
    }

    /** can_hal_event's drain: the hardware FIFO into the ring, until the FIFO is seen empty. */
    method DrainFifo(ghost s0: State, late: seq<seq<MsgObject>>, k: nat)
      returns (received: bool, dropped: bool, k': nat)
      requires InSync() && sys.isr == Test && k <= |late| && !sys.locals.received && !sys.locals.dropped
      requires Shape(s0) && Serves(s0, sys)
      modifies this`fifo, this`rxovif, this`sys, this`head, ring
      ensures InSync() && Serves(s0, sys)
      ensures sys.isr == TellReceive && fifo == []
      ensures sys.locals == old(sys).locals.(received := received, dropped := dropped)
      ensures sys.thread == old(sys).thread && k <= k' <= |late|
      ensures k == |late| ==> sys == Drain(old(sys), [])
    {
      ghost var s := sys;
      var f := new FrameBuffer();
      received, dropped, k' := false, false, k;
      var more := true;
      while more
        invariant InSync() && Serves(s0, sys) && k <= k' <= |late|
        invariant sys.locals == s.locals.(received := received, dropped := dropped)
        invariant sys.thread == s.thread && f.Valid() && fresh(f) && fresh(f.data)
        invariant more ==> sys.isr == Test && (k == |late| ==> Drain(sys, []) == Drain(s, []))
        invariant !more ==> sys.isr == TellReceive && fifo == [] && (k == |late| ==> sys == Drain(s, []))
        decreases more, |late| - k', |fifo|
      {
        var stored;
        more, stored, k' := Turn(s0, f, late, k');
        received, dropped := received || (more && stored), dropped || (more && !stored);
      }
    }

    method Signal(ghost s0: State, on: bool, event: Event, late: seq<seq<MsgObject>>, k: nat) returns (k': nat)
      requires InSync() && k <= |late| && Shape(s0) && Serves(s0, sys)
      requires (sys.isr == TellReceive && on == sys.locals.received && event == Event.Receive)
               || (sys.isr == TellDropped && on == sys.locals.dropped && event == Overrun)
               || (sys.isr == TellOverflow && on == sys.locals.ovEvent && event == Overrun)
      modifies this`raised, this`fifo, this`rxovif, this`sys
      ensures InSync() && Serves(s0, sys) && k <= k' <= |late|
      ensures sys.isr == AfterIsr(old(sys)).isr && sys.locals == old(sys).locals && sys.thread == old(sys).thread
      ensures k == |late| ==> sys == AfterIsr(old(sys))
    {
      k' := Pause(s0, late, k);
      ServesNext(s0, sys, IsrStep);
      Tell(on, event);
    }

    method Tell(on: bool, event: Event)
      requires InSync()
      requires (sys.isr == TellReceive && on == sys.locals.received && event == Event.Receive)
               || (sys.isr == TellDropped && on == sys.locals.dropped && event == Overrun)
               || (sys.isr == TellOverflow && on == sys.locals.ovEvent && event == Overrun)
      modifies this`raised, this`sys
      ensures InSync() && sys == Next(old(sys), IsrStep)
    {
      if on && objectCallback {
        raised := raised + [event];
      }
      ghost var before := sys;
      sys := Next(sys, IsrStep);
      assert on ==> Events(sys.told.signals) == Events(before.told.signals) + [event];
    }

    /** can_hal_event after the drain: at most three signals. */
    method TellAll(ghost s0: State, received: bool, dropped: bool, overflow: bool, late: seq<seq<MsgObject>>, k: nat)
      requires InSync() && sys.isr == TellReceive && k <= |late| && Shape(s0) && Serves(s0, sys)
      requires received == sys.locals.received && dropped == sys.locals.dropped && overflow == sys.locals.ovEvent
      modifies this`raised, this`fifo, this`rxovif, this`sys
      ensures InSync() && Serves(s0, sys) && (k == |late| ==> sys == AfterTells(old(sys)))
      ensures sys.isr == Off && sys.thread == old(sys).thread && sys.locals.run == old(sys).locals.run
    {
      var k' := Signal(s0, received, Event.Receive, late, k);
      k' := Signal(s0, dropped, Overrun, late, k');
      k' := Signal(s0, overflow, Overrun, late, k');
    }

    /** The handler reads the module flags. */
    method ReadFlags() returns (rxif: bool, rxov: bool)
      requires InSync() && sys.isr == Off
      modifies this`sys
      ensures InSync() && sys == Next(old(sys), IsrEnter)
      ensures rxif == sys.locals.rxEvent == (fifo != []) && rxov == sys.locals.ovEvent
      ensures sys.isr == Flags && !sys.locals.received && !sys.locals.dropped && sys.thread == old(sys).thread
      ensures sys.locals.run == old(sys).locals.run + 1
    {
      rxif, rxov := fifo != [], rxovif;
      sys := Next(sys, IsrEnter);
    }

    /** It clears the overflow flag only if it saw it. */
    method ClearOverflow(rxov: bool)
      requires InSync() && sys.isr == Flags && rxov == sys.locals.ovEvent
      modifies this`rxovif, this`sys
      ensures InSync() && sys == Next(old(sys), IsrStep)
      ensures sys.locals == old(sys).locals && sys.thread == old(sys).thread
    {
      if rxov {
        rxovif := false;
      }
      sys := Next(sys, IsrStep);
    }

    /** can_hal_event: drain and signals, as the events ask for. */
    method CanHalEvent(ghost s0: State, rxAvailable: bool, rxOverflow: bool, late: seq<seq<MsgObject>>, k: nat)
      requires InSync() && k <= |late| && Shape(s0) && Serves(s0, sys)
      requires rxOverflow == sys.locals.ovEvent && !sys.locals.received && !sys.locals.dropped
      requires sys.isr == if rxAvailable then Test else if rxOverflow then TellOverflow else Off
      modifies this`fifo, this`rxovif, this`sys, this`head, this`raised, ring
      ensures InSync() && Serves(s0, sys) && sys.isr == Off
      ensures sys.thread == old(sys).thread && sys.locals.run == old(sys).locals.run
      ensures k == |late| ==>
                sys == if rxAvailable then AfterTells(Drain(old(sys), []))
                       else if rxOverflow then AfterIsr(old(sys)) else old(sys)
    {
      if rxAvailable {
        var received, dropped, k' := DrainFifo(s0, late, k);
        TellAll(s0, received, dropped, rxOverflow, late, k');
      } else if rxOverflow {
        var _ := Signal(s0, true, Overrun, late, k);
      }
    }

    /** The handler, its receive part: flags read, overflow flag cleared if seen, then the event
        callback. late[k] arrives at the k-th of the moments between its steps. */
    method IrqHandler(late: seq<seq<MsgObject>>)
      requires InSync() && sys.isr == Off
      modifies this`fifo, this`rxovif, this`sys, this`head, this`raised, ring
      ensures InSync() && Serves(old(sys), sys) && sys.isr == Off
      ensures sys.thread == old(sys).thread && sys.locals.run == old(sys).locals.run + 1
      ensures late == [] ==> sys == HandlerRun(old(sys))
      ensures Sound(old(sys)) ==> Sound(sys)
    {
      ghost var s0 := sys;
      ServesSelf(s0);
      ServesNext(s0, s0, IsrEnter);
      var rxif, rxov := ReadFlags();
      var k := Pause(s0, late, 0);
      ServesNext(s0, sys, IsrStep);
      ClearOverflow(rxov);
      CanHalEvent(s0, rxif, rxov, late, k);
      if Sound(s0) {
        ServesReaches(s0, sys);
        ReachesSound(s0, sys);
      }
    }

    /** What happens between two steps of the thread: arrivals and handler runs, in any order. */
    method Meanwhile(happenings: seq<Happening>)
      requires InSync() && sys.isr == Off && Sound(sys)
      modifies this`fifo, this`rxovif, this`sys, this`head, this`raised, ring
      ensures InSync() && sys.isr == Off && Sound(sys)
      ensures Reaches(old(sys), sys) && HeadKept(old(sys), sys)
      ensures happenings == [] ==> sys == old(sys)
    {
      ghost var s0 := sys;
      ServesSelf(s0);
      var i := 0;
      while i < |happenings|
        invariant i <= |happenings|
        invariant InSync() && sys.isr == Off && Serves(s0, sys)
        invariant happenings == [] ==> sys == s0
      {
        ghost var s1 := sys;
        match happenings[i] {
          case Arriving(objects) => Elapse(objects);
          case Interrupt(late) => IrqHandler(late);
        }
        ServesTrans(s0, s1, sys);
        i := i + 1;
      }
      ServesKeepsHead(s0, sys);
      ServesReaches(s0, sys);
      ReachesSound(s0, sys);
    }

    /** One cell of the structure copy that takes a frame out of the ring. */
    method CopyCell(f: FrameBuffer, k: nat)
      requires InSync() && sys.isr == Off && Untorn(sys) && f.Valid()
      requires sys.thread.Copying? && |sys.thread.copied| == k < CELLS && Holds(f, sys.thread.copied)
      modifies this`sys, f, f.data
      ensures InSync() && sys == Next(old(sys), ThreadStep) && f.Valid()
      ensures sys.thread.Copying? && Holds(f, sys.thread.copied)
      ensures |sys.thread.copied| == |old(sys).thread.copied| + 1 && sys == old(sys).(thread := sys.thread)
    {
      ghost var c, image := sys.thread.copied, ImageOf(ring[tail]);
      assert sys.ring.slots[tail].image == image;
      assert forall i | 0 <= i < |c| :: c[i] == image[..|c|][i];
      CopyField(ring[tail], f, c, k);
      sys := Next(sys, ThreadStep);
    }

    /** MessageRead's pop: emptiness test, structure copy, tail advance. moments[m] happens before
        the m-th of these steps. */
    method PopFrame(moments: seq<seq<Happening>>) returns (found: bool, frame: Frame, ghost item: Item)
      requires Valid()
      modifies this`fifo, this`rxovif, this`sys, this`head, this`tail, this`raised, ring
      ensures Valid() && Reaches(old(sys), sys)
      ensures !old(sys).ring.Empty() ==> found && item == old(sys).ring.slots[old(sys).ring.tail]
      ensures !found ==> sys.frames.delivered == old(sys).frames.delivered
      ensures found ==>
                && sys.frames.delivered == old(sys).frames.delivered + [item]
                && item.image == ImageOf(frame) && frame.len <= PAYLOAD_BYTES
      ensures moments == [] ==> sys == if found then Popped(old(sys)) else old(sys)
    {
      ghost var s0 := sys;
      frame := Frame(0, false, false, false, 0, Blank());
      item := Item(0, ImageOf(frame));
      Meanwhile(Moment(moments, 0));
      found := tail != head;
      if found {
        frame, item := TakeFrame(s0, moments);
      }
    }

    /** The pop of a ring seen non-empty. */
    method TakeFrame(ghost s0: State, moments: seq<seq<Happening>>) returns (frame: Frame, ghost item: Item)
      requires InSync() && sys.isr == Off && Sound(sys) && sys.thread == Outside && !sys.ring.Empty()
      requires Shape(s0) && Reaches(s0, sys)
      modifies this`fifo, this`rxovif, this`sys, this`head, this`tail, this`raised, ring
      ensures Valid() && Reaches(s0, sys) && item == old(sys).ring.slots[old(sys).ring.tail]
      ensures sys.frames.delivered == old(sys).frames.delivered + [item]
      ensures item.image == ImageOf(frame) && frame.len <= PAYLOAD_BYTES
      ensures moments == [] ==> sys == Popped(old(sys))
    {
      ghost var s1 := sys;
      item := sys.ring.slots[sys.ring.tail];
      var f := new FrameBuffer();
      ReachesNext(s0, sys, ThreadStep);
      NextConserves(sys, ThreadStep);
      sys := Next(sys, ThreadStep);
      CopyFrame(s0, f, moments);
      frame := f.Value();
      assert sys.thread.copied == item.image[..CELLS] == item.image;
      Advance(s0);
    }

    /** The structure copy, cell by cell. */
    method CopyFrame(ghost s0: State, f: FrameBuffer, moments: seq<seq<Happening>>)
      requires InSync() && sys.isr == Off && Sound(sys) && sys.thread == Copying([]) && f.Valid()
      requires Shape(s0) && Reaches(s0, sys)
      modifies this`fifo, this`rxovif, this`sys, this`head, this`raised, ring, f, f.data
      ensures InSync() && sys.isr == Off && Sound(sys) && f.Valid() && Reaches(s0, sys)
      ensures HeadKept(old(sys).(thread := sys.thread), sys) && !sys.ring.Empty()
      ensures sys.thread.Copying? && |sys.thread.copied| == CELLS && sys.thread.copied == ImageOf(f.Value())
      ensures f.len <= PAYLOAD_BYTES
      ensures moments == [] ==> sys == old(sys).(thread := sys.thread)
    {
      ghost var s1 := sys;
      var k := 0;
      while k < CELLS
        invariant k <= CELLS && f.Valid()
        invariant InSync() && sys.isr == Off && Sound(sys) && Reaches(s0, sys)
        invariant sys.thread.Copying? && |sys.thread.copied| == k && Holds(f, sys.thread.copied)
        invariant HeadKept(s1.(thread := sys.thread), sys)
        invariant moments == [] ==> sys == s1.(thread := sys.thread)
      {
        CopyNext(s0, f, k, Moment(moments, k + 1));
        k := k + 1;
      }
      ghost var s2 := sys;
      Meanwhile(Moment(moments, CELLS + 1));
      ReachesTrans(s0, s2, sys);
      HoldsAll(f, sys.thread.copied);
      assert sys.thread.copied[4] == sys.ring.slots[tail].image[..CELLS][4] == ImageOf(ring[tail])[4];
    }

    /** One cell, after whatever happens before it. */
    method CopyNext(ghost s0: State, f: FrameBuffer, k: nat, happenings: seq<Happening>)
      requires InSync() && sys.isr == Off && Sound(sys) && f.Valid() && Shape(s0) && Reaches(s0, sys)
      requires sys.thread.Copying? && |sys.thread.copied| == k < CELLS && Holds(f, sys.thread.copied)
      modifies this`fifo, this`rxovif, this`sys, this`head, this`raised, ring, f, f.data
      ensures InSync() && sys.isr == Off && Sound(sys) && f.Valid() && Reaches(s0, sys)
      ensures sys.thread.Copying? && |sys.thread.copied| == |old(sys).thread.copied| + 1 && Holds(f, sys.thread.copied)
      ensures HeadKept(old(sys).(thread := sys.thread), sys)
      ensures happenings == [] ==> sys == old(sys).(thread := sys.thread)
    {
      ghost var s1 := sys;
      Meanwhile(happenings);
      ReachesTrans(s0, s1, sys);
      ReachesNext(s0, sys, ThreadStep);
      ghost var s2 := sys;
      CopyCell(f, k);
      NextConserves(s2, ThreadStep);
    }

    /** The tail advance that ends the pop. */
    method Advance(ghost s0: State)
      requires InSync() && sys.isr == Off && Sound(sys) && Shape(s0) && Reaches(s0, sys)
      requires sys.thread.Copying? && |sys.thread.copied| == CELLS
      modifies this`tail, this`sys
      ensures Valid() && Reaches(s0, sys)
      ensures sys == old(sys).(thread := Outside, ring := old(sys).ring.Pop(),
                frames := old(sys).frames.(delivered := old(sys).frames.delivered
                            + [Item(old(sys).ring.slots[old(sys).ring.tail].no, old(sys).thread.copied)]))
    {
      ReachesNext(s0, sys, ThreadStep);
      NextConserves(sys, ThreadStep);
      sys := Next(sys, ThreadStep);
      tail := (tail + 1) % RING_LEN;
    }

    /** MessageRead's copy loop: as many bytes as the frame has and the caller has room for. */
    method CopyOut(frame: Frame, data: array?<u8>, size: u8) returns (n: nat)
      requires frame.len <= PAYLOAD_BYTES && (size > 0 ==> data != null && size <= data.Length)
      modifies data
      ensures n == (if frame.len < size then frame.len else size)
      ensures data != null ==> n <= data.Length && data[..] == frame.data[..n] + old(data[n..])
    {
      n := if frame.len < size then frame.len else size;
      ghost var before := if data == null then [] else data[..];
      var i := 0;
      while i < n
        invariant i <= n
        invariant forall j | 0 <= j < i :: data[j] == frame.data[j]
        invariant data != null ==> forall j | i <= j < data.Length :: data[j] == before[j]
      {
        data[i] := frame.data[i];
        i := i + 1;
      }
    }

    /** CAN_MessageRead, interrupted as moments says: the oldest frame leaves the ring, and its
        information and as many of its bytes as the caller has room for are returned. */
    method MessageRead(powered: bool, objIdx: nat, infoGiven: bool, data: array?<u8>, size: u8,
                       moments: seq<seq<Happening>>)
      returns (rc: int, info: MsgInfo, ghost item: Item)
      requires Valid() && (data != null ==> size <= data.Length)
      modifies this`fifo, this`rxovif, this`sys, this`head, this`tail, this`raised, ring, data
      ensures Valid() && Reaches(old(sys), sys)
      ensures !powered ==> rc == -1
      ensures powered && (!infoGiven || objIdx != 1 || (size > 0 && data == null)) ==> rc == -5
      ensures powered && infoGiven && objIdx == 1 && (size > 0 ==> data != null) ==> rc >= 0 || rc == -1
      ensures powered && infoGiven && objIdx == 1 && (size > 0 ==> data != null) && !old(sys).ring.Empty() ==>
                rc >= 0 && item == old(sys).ring.slots[old(sys).ring.tail]
      ensures rc < 0 ==>
                sys.frames.delivered == old(sys).frames.delivered && (data != null ==> data[..] == old(data[..]))
      ensures rc >= 0 ==>
                && sys.frames.delivered == old(sys).frames.delivered + [item]
                && Answers(item.image, size, rc, info, if data == null then [] else data[..])
                && (data != null ==> rc <= data.Length && data[rc..] == old(data[rc..]))
      ensures moments == [] ==> sys == if rc >= 0 then Popped(old(sys)) else old(sys)
    {
      ghost var s0 := sys;
      ReachesSelf(s0);
      info, item := MsgInfo(0, false, false, false, false, 0), s0.ring.slots[s0.ring.tail];
      if !powered {
        return ARM_DRIVER_ERROR, info, item;
      }
      if BadRead(objIdx, infoGiven, data, size) {
        return ARM_DRIVER_ERROR_PARAMETER, info, item;
      }
      var found, frame;
      found, frame, item := PopFrame(moments);
      if !found {
        return ARM_DRIVER_ERROR, info, item;
      }
      info := ReadInfo(frame);
      rc := CopyOut(frame, data, size);
      assert data != null ==> data[..rc] == frame.data[..rc];
      assert Answers(ImageOf(frame), size, rc, info, if data == null then [] else data[..]);
    }

    /** Frames in the ring. */
    method Waiting() returns (n: nat)
      requires Valid()
      ensures n == |sys.ring.Contents()|
    {
      n := (head + RING_LEN - tail) % RING_LEN;
    }

    static predicate BadRead(objIdx: nat, infoGiven: bool, data: array?<u8>, size: u8) {
      !infoGiven || objIdx != CAN_OBJ_RX || (size > 0 && data == null)
    }
  }

  function Moment(moments: seq<seq<Happening>>, m: nat): seq<Happening> {
    if m < |moments| then moments[m] else []
  }

  /** The answer to a read of a frame with this image, into a buffer with room for size bytes. */
  ghost predicate Answers(image: Image, size: nat, rc: int, info: MsgInfo, buffer: seq<u8>) {
    exists f: Frame ::
      && ImageOf(f) == image && f.len <= PAYLOAD_BYTES && info == ReadInfo(f)
      && rc == (if f.len < size then f.len else size)
      && (rc > 0 ==> rc <= |buffer| && buffer[..rc] == f.data[..rc])
  }

  /** No loss is silent at the callback itself: once a receiver with an object callback has lost a
      frame, the callback was told of an overrun, or the overflow flag is still up. */
  lemma LossReachesCallback(r: Receiver, s: State, n: nat)
    requires r.Valid() && Initial(s) && Reaches(s, r.sys) && r.objectCallback && n in r.sys.frames.lost
    ensures r.rxovif || Overrun in r.raised
  {
    var actions: seq<Action> :| Run(s, actions) == r.sys;
    var i := LossesAreHeard(s, actions, n);
    var u := Run(s, actions[..i]);
    var signals: seq<RxPipeline.Signal> := r.sys.told.signals;
    if actions[i].Arrive? {
      if !r.rxovif {
        var j :| |u.told.signals| <= j < |signals| && signals[j].event == Overrun;
        assert Events(signals)[j] == Overrun;
      }
    } else {
      var j :| 0 <= j < |signals| && signals[j] == RxPipeline.Signal(Overrun, u.locals.run);
      assert Events(signals)[j] == Overrun;
    }
  }

  /** What an accepted message must read back as. */
  predicate SameMessage(info: MsgInfo, data: seq<u8>, out: MsgInfo, bytes: seq<u8>)
    requires |data| <= PAYLOAD_BYTES
  {
    && out.id == (if info.id >= 0x8000_0000 then info.id % 0x2000_0000 + 0x8000_0000 else info.id % 0x800)
    && out.edl == info.edl && out.brs == (info.edl && info.brs) && !out.rtr && !out.esi
    && out.dlc == LenToDlc(|data|)
    && |bytes| == DlcToLen(out.dlc) && data <= bytes
    && forall i | |data| <= i < |bytes| :: bytes[i] == 0
  }

  lemma ReadBack(info: MsgInfo, data: seq<u8>, stale: Payload, words: MsgObject, f: Frame)
    requires |data| <= PAYLOAD_BYTES && !info.rtr && (info.edl || |data| <= 8)
    requires Encode(SendFrame(info, data, stale)) <= words && ImageOf(f) == ObjectImage(words)
    ensures f.len <= PAYLOAD_BYTES && SameMessage(info, data, ReadInfo(f), f.data[..f.len])
  {
    var g := Decode(words, Blank());
    EndToEnd(info, data, stale, words, Blank());
    ImageDetermines(g, f);
    forall i | 0 <= i < f.len ensures f.data[i] == g.data[i] {
      assert f.data[..f.len][i] == g.data[..g.len][i];
    }
    assert data <= f.data[..f.len] by {
      assert g.data[..|data|] == data;
    }
  }

  /** The arrived object is one a send of this message wrote. */
  ghost predicate Carries(image: Image, info: MsgInfo, data: seq<u8>) {
    && |data| <= PAYLOAD_BYTES && !info.rtr && (info.edl || |data| <= 8)
    && exists stale: Payload, words: MsgObject ::
         Encode(SendFrame(info, data, stale)) <= words && image == ObjectImage(words)
  }

  /** In every reachable state and under every interruption: a MessageRead with room for a whole
      payload returns a frame that arrived, and if its object is one an accepted send wrote, it
      returns that message: identifier, flags and length code, the bytes sent, and zeros up to the
      coded length. */
  method ReadMessage(r: Receiver, buffer: array<u8>, moments: seq<seq<Happening>>)
    returns (rc: int, out: MsgInfo, ghost no: nat)
    requires r.Valid() && buffer.Length == PAYLOAD_BYTES
    modifies r, r.ring, buffer
    ensures r.Valid() && Reaches(old(r.sys), r.sys)
    ensures !old(r.sys).ring.Empty() ==> rc >= 0 && no == old(r.sys).ring.slots[old(r.sys).ring.tail].no
    ensures rc >= 0 ==>
              && rc <= PAYLOAD_BYTES && no < |r.sys.frames.arrived| && no !in r.sys.frames.lost
              && forall info, data | Carries(r.sys.frames.arrived[no], info, data) ::
                   SameMessage(info, data, out, buffer[..rc])
    ensures moments == [] ==> r.sys == if rc >= 0 then Popped(old(r.sys)) else old(r.sys)
  {
    ghost var item;
    rc, out, item := r.MessageRead(true, CAN_OBJ_RX, true, buffer, PAYLOAD_BYTES, moments);
    no := item.no;
    if rc >= 0 {
      assert item in r.sys.frames.delivered;
      DeliveredArrived(r.sys, item);
      forall info, data | Carries(item.image, info, data) ensures SameMessage(info, data, out, buffer[..rc]) {
        AnswerIsMessage(item.image, info, data, rc, out, buffer[..]);
      }
    }
  }

  lemma AnswerIsMessage(image: Image, info: MsgInfo, data: seq<u8>, rc: int, out: MsgInfo, buffer: seq<u8>)
    requires Carries(image, info, data) && Answers(image, PAYLOAD_BYTES, rc, out, buffer)
    ensures 0 <= rc <= |buffer| && SameMessage(info, data, out, buffer[..rc])
  {
    var f: Frame :| ImageOf(f) == image && f.len <= PAYLOAD_BYTES && out == ReadInfo(f)
                    && rc == (if f.len < PAYLOAD_BYTES then f.len else PAYLOAD_BYTES)
                    && (rc > 0 ==> rc <= |buffer| && buffer[..rc] == f.data[..rc]);
    var stale: Payload, words: MsgObject :|
      Encode(SendFrame(info, data, stale)) <= words && image == ObjectImage(words);
    ReadBack(info, data, stale, words, f);
    assert buffer[..rc] == f.data[..f.len];
  }

  lemma HandlerStores(s: State, j: nat)
    requires Sound(s) && s.isr == Off && j < Kept(s)
    ensures var c, t := s.ring.Contents(), HandlerRun(s);
            && t.frames.arrived == s.frames.arrived
            && |c| + j < |t.ring.Contents()| && t.ring.Contents()[|c| + j] == s.fifo[j]
    ensures s.fifo[j].no < |s.frames.arrived| && s.frames.arrived[s.fifo[j].no] == s.fifo[j].image
  {
    HandlerRunNet(s);
    SurvivorsBounded(s.frames.arrived, s.frames.lost);
    assert s.fifo[j] in Pipe(s);
  }

  lemma PoppedContents(s: State)
    requires Shape(s) && s.ring.Contents() != []
    ensures !s.ring.Empty() && Popped(s).ring.Contents() == s.ring.Contents()[1..]
    ensures s.ring.slots[s.ring.tail] == s.ring.Contents()[0] && Popped(s).frames.arrived == s.frames.arrived
  {
    s.ring.Capacity();
    s.ring.PopContents();
  }

  /** Frames read and put aside. */
  method Skip(r: Receiver, n: nat, buffer: array<u8>)
    requires r.Valid() && n < |r.sys.ring.Contents()| && buffer.Length == PAYLOAD_BYTES
    modifies r, r.ring, buffer
    ensures r.Valid() && r.sys.ring.Contents() == old(r.sys).ring.Contents()[n..]
    ensures r.sys.frames.arrived == old(r.sys).frames.arrived
  {
    ghost var s0 := r.sys;
    var i := 0;
    while i < n
      invariant i <= n && r.Valid() && r.sys.ring.Contents() == s0.ring.Contents()[i..]
      invariant r.sys.frames.arrived == s0.frames.arrived
    {
      PoppedContents(r.sys);
      var _, _, _ := ReadMessage(r, buffer, []);
      i := i + 1;
    }
  }

  method ReadNext(r: Receiver, buffer: array<u8>, ghost no: nat) returns (rc: int, out: MsgInfo)
    requires r.Valid() && buffer.Length == PAYLOAD_BYTES
    requires r.sys.ring.Contents() != [] && r.sys.ring.Contents()[0].no == no < |r.sys.frames.arrived|
    modifies r, r.ring, buffer
    ensures r.Valid() && 0 <= rc <= PAYLOAD_BYTES
    ensures forall info, data | Carries(old(r.sys).frames.arrived[no], info, data) ::
              SameMessage(info, data, out, buffer[..rc])
  {
    PoppedContents(r.sys);
    ghost var read;
    rc, out, read := ReadMessage(r, buffer, []);
    assert r.sys.frames.arrived == old(r.sys).frames.arrived && read == no;
  }

  /** End to end: whatever waits in FIFO and ring, an object for which there is room is read back
      after the frames ahead of it, as the message that was sent. */
  method Deliver(r: Receiver, j: nat, buffer: array<u8>) returns (rc: int, out: MsgInfo)
    requires r.Valid() && j < Kept(r.sys) && buffer.Length == PAYLOAD_BYTES
    modifies r, r.ring, buffer
    ensures r.Valid() && 0 <= rc <= PAYLOAD_BYTES
    ensures forall info, data | Carries(ObjectImage(old(r.fifo)[j]), info, data) ::
              SameMessage(info, data, out, buffer[..rc])
  {
    ghost var s0 := r.sys;
    var waiting := r.Waiting();
    ghost var image := ObjectImage(r.fifo[j]);
    assert s0.fifo[j].image == image;
    HandlerStores(s0, j);
    r.IrqHandler([]);
    Skip(r, waiting + j, buffer);
    rc, out := ReadNext(r, buffer, s0.fifo[j].no);
  }
}
