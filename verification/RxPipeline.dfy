/** The receive path as a step system: frames arrive at the hardware FIFO at any moment, the
    interrupt handler drains it into the ring, and the thread pops the ring. The handler may
    start between any two steps of the thread; arrivals fall between any two steps of either. */
module RxPipeline {
  import opened RxRing

  const FIFO_DEPTH := 4

  /** A frame as the cells a structure copy moves one by one: five fields and 64 bytes. */
  const CELLS := 69
  type Image = s: seq<nat> | |s| == CELLS witness seq(CELLS, _ => 0)

  /** A frame in flight. Its arrival number is history: no step looks at it. */
  datatype Item = Item(no: nat, image: Image)

  datatype Event = Receive | Overrun
  datatype Signal = Signal(event: Event, run: nat)

  /** MessageRead: outside, or past the emptiness test with some cells of the slot copied. */
  datatype Thread = Outside | Copying(copied: seq<nat>)

  /** The handler: flags read; then the drain loop (test, wait, object read, object released);
      then the three signals. */
  datatype Isr =
    | Off
    | Flags
    | Test
    | Wait
    | Fetched(item: Item)
    | Released(item: Item)
    | TellReceive
    | TellDropped
    | TellOverflow

  /** The handler's locals; run numbers its invocations. */
  datatype Locals = Locals(rxEvent: bool, ovEvent: bool, received: bool, dropped: bool, run: nat)

  /** History of the frames: all arrivals, the numbers of the lost ones, the frames returned. */
  datatype Frames = Frames(arrived: seq<Image>, lost: set<nat>, delivered: seq<Item>)

  /** History of the signals: all raised; their number at each FIFO overflow; the runs that met a
      full ring; their number when the ring was last empty. */
  datatype Told = Told(signals: seq<Signal>, overflows: seq<nat>, ringDrops: set<nat>, emptyMark: nat)

  datatype State = State(
    fifo: seq<Item>, rxovif: bool, ring: Ring<Item>, thread: Thread, isr: Isr, locals: Locals,
    frames: Frames, told: Told)

  predicate Shape(s: State) {
    && s.ring.Valid()
    && |s.fifo| <= FIFO_DEPTH
    && (s.thread.Copying? ==> |s.thread.copied| <= CELLS)
  }

  predicate Initial(s: State) {
    && Shape(s) && s.fifo == [] && !s.rxovif && s.ring.Empty() && s.thread == Outside && s.isr == Off
    && s.frames == Frames([], {}, []) && s.told == Told([], [], {}, 0)
  }

  // ------------------------------------------------------------------------------------
  // Steps
  // ------------------------------------------------------------------------------------

  datatype Action = Arrive(image: Image) | IsrEnter | IsrStep | ThreadStep

  function Next(s: State, a: Action): (t: State)
    requires Shape(s)
    ensures Shape(t)
  {
    match a
    case Arrive(image) => AfterArrival(s, image)
    case IsrEnter => AfterEnter(s)
    case IsrStep => AfterIsr(s)
    case ThreadStep => AfterThread(s)
  }

  /** A full FIFO drops the new frame and latches the overflow flag. */
  function AfterArrival(s: State, image: Image): (t: State)
    requires Shape(s)
    ensures Shape(t)
  {
    var no, arrived := |s.frames.arrived|, s.frames.arrived + [image];
    if |s.fifo| < FIFO_DEPTH then
      s.(fifo := s.fifo + [Item(no, image)], frames := s.frames.(arrived := arrived))
    else
      s.(rxovif := true, frames := s.frames.(arrived := arrived, lost := s.frames.lost + {no}),
         told := s.told.(overflows := s.told.overflows + [|s.told.signals|]))
  }

  /** The handler reads the module flags. */
  function AfterEnter(s: State): (t: State)
    requires Shape(s)
    ensures Shape(t)
  {
    if s.isr != Off then s
    else s.(isr := Flags, locals := Locals(s.fifo != [], s.rxovif, false, false, s.locals.run + 1))
  }

  function AfterIsr(s: State): (t: State)
    requires Shape(s)
    ensures Shape(t)
  {
    match s.isr
    case Off => s
    case Flags => // only an overflow flag that was seen is cleared
      s.(rxovif := s.rxovif && !s.locals.ovEvent,
         isr := if s.locals.rxEvent then Test else if s.locals.ovEvent then TellOverflow else Off)
    case Test => s.(isr := if s.fifo != [] then Wait else TellReceive)
    case Wait => if s.fifo != [] then s.(isr := Fetched(s.fifo[0])) else s
    case Fetched(x) => if s.fifo != [] then s.(fifo := s.fifo[1..], isr := Released(x)) else s
    case Released(x) => AfterStore(s, x)
    case TellReceive => s.(isr := TellDropped, told := Tell(s, s.locals.received, Receive))
    case TellDropped => s.(isr := TellOverflow, told := Tell(s, s.locals.dropped, Overrun))
    case TellOverflow => s.(isr := Off, told := Tell(s, s.locals.ovEvent, Overrun))
  }

  function AfterStore(s: State, x: Item): (t: State)
    requires Shape(s)
    ensures Shape(t)
  {
    if !s.ring.Full() then
      s.(isr := Test, ring := s.ring.Push(x), locals := s.locals.(received := true),
         told := if s.ring.Empty() then s.told.(emptyMark := |s.told.signals|) else s.told)
    else
      s.(isr := Test, locals := s.locals.(dropped := true),
         frames := s.frames.(lost := s.frames.lost + {x.no}),
         told := s.told.(ringDrops := s.told.ringDrops + {s.locals.run}))
  }

  function Tell(s: State, on: bool, event: Event): Told {
    if on then s.told.(signals := s.told.signals + [Signal(event, s.locals.run)]) else s.told
  }

  /** Emptiness test, one copied cell, or the tail advance that ends the call. */
  function AfterThread(s: State): (t: State)
    requires Shape(s)
    ensures Shape(t)
  {
    if s.isr != Off then s
    else
      match s.thread
      case Outside => if s.ring.Empty() then s else s.(thread := Copying([]))
      case Copying(c) =>
        var slot := s.ring.slots[s.ring.tail];
        if |c| < CELLS then s.(thread := Copying(c + [slot.image[|c|]]))
        else s.(thread := Outside, ring := s.ring.Pop(),
                frames := s.frames.(delivered := s.frames.delivered + [Item(slot.no, c)]))
  }

  function Run(s: State, actions: seq<Action>): (t: State)
    requires Shape(s)
    ensures Shape(t)
    decreases |actions|
  {
    if actions == [] then s else Run(Next(s, actions[0]), actions[1..])
  }

  lemma {:induction false} RunAppend(s: State, first: seq<Action>, second: seq<Action>)
    requires Shape(s)
    ensures Run(s, first + second) == Run(Run(s, first), second)
    decreases |first|
  {
    if first == [] {
      assert first + second == second;
    } else {
      assert (first + second)[1..] == first[1..] + second;
      RunAppend(Next(s, first[0]), first[1..], second);
    }
  }

  // ------------------------------------------------------------------------------------
  // Conservation and order
  // ------------------------------------------------------------------------------------

  /** The arrivals that were not lost, in arrival order. */
  function Survivors(arrived: seq<Image>, lost: set<nat>): seq<Item> {
    if arrived == [] then []
    else
      var n := |arrived| - 1;
      Survivors(arrived[..n], lost) + if n in lost then [] else [Item(n, arrived[n])]
  }

  /** The frame that has left the FIFO and not yet reached the ring. */
  function InHand(isr: Isr): seq<Item> {
    if isr.Released? then [isr.item] else []
  }

  /** Everything between the application and the wire, oldest first. */
  function Pipe(s: State): seq<Item>
    requires Shape(s)
  {
    s.frames.delivered + s.ring.Contents() + InHand(s.isr) + s.fifo
  }

  predicate Conserved(s: State)
    requires Shape(s)
  {
    && Pipe(s) == Survivors(s.frames.arrived, s.frames.lost)
    && (forall n | n in s.frames.lost :: n < |s.frames.arrived|)
    && HandlerAhead(s)
  }

  /** Inside the loop the FIFO cannot run dry: the handler is its only consumer. So the wait of
      the receive call never iterates. */
  predicate HandlerAhead(s: State) {
    && (s.isr == Wait ==> s.fifo != [])
    && (s.isr.Fetched? ==> s.fifo != [] && s.fifo[0] == s.isr.item)
  }

  /** What the thread has copied so far is the front of its slot, and the slot is in the ring. */
  predicate Untorn(s: State)
    requires Shape(s)
  {
    s.thread.Copying? ==>
      !s.ring.Empty() && s.thread.copied == s.ring.slots[s.ring.tail].image[..|s.thread.copied|]
  }

  lemma {:induction false} SurvivorsBounded(arrived: seq<Image>, lost: set<nat>)
    ensures forall x | x in Survivors(arrived, lost) :: x.no < |arrived| && x.no !in lost && x.image == arrived[x.no]
  {
    if arrived != [] {
      SurvivorsBounded(arrived[..|arrived| - 1], lost);
    }
  }

  predicate Increasing(p: seq<Item>) {
    forall i, j | 0 <= i < j < |p| :: p[i].no < p[j].no
  }

  /** Arrival numbers strictly increase along the survivors: nothing is duplicated. */
  lemma {:induction false} SurvivorsOrdered(arrived: seq<Image>, lost: set<nat>)
    ensures Increasing(Survivors(arrived, lost))
  {
    if arrived != [] {
      var n := |arrived| - 1;
      var q := Survivors(arrived[..n], lost);
      SurvivorsOrdered(arrived[..n], lost);
      SurvivorsBounded(arrived[..n], lost);
      assert forall i | 0 <= i < |q| :: q[i] in q;
    }
  }

  lemma {:induction false} SurvivorsIgnore(arrived: seq<Image>, lost: set<nat>, n: nat)
    requires n >= |arrived|
    ensures Survivors(arrived, lost + {n}) == Survivors(arrived, lost)
  {
    if arrived != [] {
      SurvivorsIgnore(arrived[..|arrived| - 1], lost, n);
    }
  }

  /** Losing a survivor takes exactly that one out. */
  lemma {:induction false} SurvivorsDrop(arrived: seq<Image>, lost: set<nat>, p: seq<Item>, x: Item, q: seq<Item>)
    requires Survivors(arrived, lost) == p + [x] + q
    ensures Survivors(arrived, lost + {x.no}) == p + q
  {
    var all := p + [x] + q;
    assert all[|p|] == x;
    var n := |arrived| - 1;
    var front := Survivors(arrived[..n], lost);
    SurvivorsBounded(arrived[..n], lost);
    if n in lost {
      assert front + [] == front;
      assert front == all && x in front;
      SurvivorsDrop(arrived[..n], lost, p, x, q);
      assert n in lost + {x.no};
    } else {
      var last := Item(n, arrived[n]);
      assert all == front + [last];
      assert front == all[..|all| - 1] && last == all[|all| - 1];
      if q == [] {
        assert all == p + [x];
        assert x == last && front == p;
        assert p + q == p;
        SurvivorsIgnore(arrived[..n], lost, n);
      } else {
        var q' := q[..|q| - 1];
        assert q == q' + [last];
        assert front == p + [x] + q';
        assert front[|p|] == x && x in front;
        SurvivorsDrop(arrived[..n], lost, p, x, q');
        assert n !in lost + {x.no};
        assert p + q == (p + q') + [last];
      }
    }
  }

  lemma ArrivalConserves(s: State, image: Image)
    requires Shape(s) && Conserved(s)
    ensures Conserved(AfterArrival(s, image))
  {
    var t := AfterArrival(s, image);
    var n := |s.frames.arrived|;
    assert t.frames.arrived[..n] == s.frames.arrived;
    if |s.fifo| == FIFO_DEPTH {
      SurvivorsIgnore(s.frames.arrived, s.frames.lost, n);
    } else {
      assert Pipe(t) == Pipe(s) + [Item(n, image)];
    }
  }

  lemma StoreConserves(s: State, x: Item)
    requires Shape(s) && Conserved(s) && s.isr == Released(x)
    ensures Conserved(AfterStore(s, x))
  {
    var t := AfterStore(s, x);
    var p := s.frames.delivered + s.ring.Contents();
    assert Pipe(s) == p + [x] + s.fifo;
    if !s.ring.Full() {
      s.ring.PushContents(x);
      assert Pipe(t) == Pipe(s);
    } else {
      SurvivorsDrop(s.frames.arrived, s.frames.lost, p, x, s.fifo);
      assert Pipe(t) == p + s.fifo;
      SurvivorsBounded(s.frames.arrived, s.frames.lost);
      assert Pipe(s)[|p|] == x;
    }
  }

  lemma ReleaseConserves(s: State, x: Item)
    requires Shape(s) && Conserved(s) && s.isr == Fetched(x)
    ensures Conserved(AfterIsr(s))
  {
    var t := AfterIsr(s);
    assert s.fifo == [x] + t.fifo;
    assert Pipe(t) == Pipe(s);
  }

  lemma IsrConserves(s: State)
    requires Shape(s) && Conserved(s)
    ensures Conserved(AfterIsr(s))
  {
    match s.isr
    case Released(x) => StoreConserves(s, x);
    case Fetched(x) => ReleaseConserves(s, x);
    case _ =>
      var t := AfterIsr(s);
      assert t.ring == s.ring && t.frames == s.frames && t.fifo == s.fifo;
      assert Pipe(t) == Pipe(s);
  }

  lemma ThreadConserves(s: State)
    requires Shape(s) && Conserved(s) && Untorn(s) && s.isr == Off
    ensures Conserved(AfterThread(s)) && Untorn(AfterThread(s))
  {
    var t := AfterThread(s);
    if s.thread.Copying? && |s.thread.copied| == CELLS {
      var slot := s.ring.slots[s.ring.tail];
      s.ring.PopContents();
      assert s.thread.copied == slot.image;
      assert Pipe(t) == Pipe(s);
    }
  }

  /** The handler never writes the slot being copied. */
  lemma IsrKeepsUntorn(s: State)
    requires Shape(s) && Untorn(s)
    ensures Untorn(AfterIsr(s))
  {
    if s.isr.Released? && s.thread.Copying? && !s.ring.Full() {
      s.ring.PushContents(s.isr.item);
    }
  }

  lemma NextConserves(s: State, a: Action)
    requires Shape(s) && Conserved(s) && Untorn(s)
    ensures Conserved(Next(s, a)) && Untorn(Next(s, a))
  {
    match a
    case Arrive(image) => ArrivalConserves(s, image);
    case IsrEnter =>
    case IsrStep => IsrConserves(s); IsrKeepsUntorn(s);
    case ThreadStep =>
      if s.isr == Off {
        ThreadConserves(s);
      }
  }

  /** In every state any interleaving reaches: frames returned, then ring, then the frame in the
      handler's hand, then FIFO are exactly the arrivals not lost, in order; a copy under way is
      a faithful part of the oldest frame in the ring. */
  lemma {:induction false} EveryRunConserves(s: State, actions: seq<Action>)
    requires Shape(s) && Conserved(s) && Untorn(s)
    ensures Conserved(Run(s, actions)) && Untorn(Run(s, actions))
    decreases |actions|
  {
    if actions != [] {
      NextConserves(s, actions[0]);
      EveryRunConserves(Next(s, actions[0]), actions[1..]);
    }
  }

  // ------------------------------------------------------------------------------------
  // No silent loss, no lost wake-up
  // ------------------------------------------------------------------------------------

  predicate HeardSince(signals: seq<Signal>, mark: nat, event: Event) {
    exists i | mark <= i < |signals| :: signals[i].event == event
  }

  predicate InLoop(isr: Isr) {
    isr == Test || isr == Wait || isr.Fetched? || isr.Released?
  }

  /** Every FIFO overflow is still latched, or was seen by the running handler, or was followed
      by an overrun signal. */
  predicate OverflowsCovered(s: State) {
    forall i | 0 <= i < |s.told.overflows| ::
      s.told.overflows[i] <= |s.told.signals|
      && (s.rxovif || (s.isr != Off && s.locals.ovEvent)
          || HeardSince(s.told.signals, s.told.overflows[i], Overrun))
  }

  /** Every handler run that met a full ring signals the overrun before it ends. */
  predicate DropsCovered(s: State) {
    forall r | r in s.told.ringDrops ::
      (r == s.locals.run && s.locals.dropped && (InLoop(s.isr) || s.isr == TellReceive || s.isr == TellDropped))
      || Signal(Overrun, r) in s.told.signals
  }

  /** A ring that is not empty has been announced since it last was, or is about to be. */
  predicate ReceiptsCovered(s: State) {
    && s.told.emptyMark <= |s.told.signals|
    && (!s.ring.Empty() ==>
          (s.locals.received && (InLoop(s.isr) || s.isr == TellReceive))
          || HeardSince(s.told.signals, s.told.emptyMark, Receive))
  }

  predicate Audible(s: State) {
    OverflowsCovered(s) && DropsCovered(s) && ReceiptsCovered(s)
  }

  lemma HeardLater(signals: seq<Signal>, more: Signal, mark: nat, event: Event)
    ensures HeardSince(signals, mark, event) ==> HeardSince(signals + [more], mark, event)
    ensures mark <= |signals| && more.event == event ==> HeardSince(signals + [more], mark, event)
  {
    var longer := signals + [more];
    if HeardSince(signals, mark, event) {
      var i :| mark <= i < |signals| && signals[i].event == event;
      assert longer[i].event == event;
    }
    if mark <= |signals| && more.event == event {
      assert longer[|signals|].event == event;
    }
  }

  lemma TellAudible(s: State)
    requires Shape(s) && Audible(s) && (s.isr == TellReceive || s.isr == TellDropped || s.isr == TellOverflow)
    ensures Audible(AfterIsr(s))
  {
    var t := AfterIsr(s);
    if t.told != s.told {
      var more := t.told.signals[|s.told.signals|];
      assert t.told.signals == s.told.signals + [more];
      forall mark: nat, event {
        HeardLater(s.told.signals, more, mark, event);
      }
      assert forall x | x in s.told.signals :: x in t.told.signals;
      assert more in t.told.signals;
    }
  }

  lemma StoreAudible(s: State, x: Item)
    requires Shape(s) && Audible(s) && s.isr == Released(x)
    ensures Audible(AfterStore(s, x))
  {}

  lemma NextAudible(s: State, a: Action)
    requires Shape(s) && Audible(s) && Untorn(s)
    ensures Audible(Next(s, a))
  {
    match a
    case Arrive(image) =>
    case IsrEnter =>
    case IsrStep =>
      if s.isr.Released? {
        StoreAudible(s, s.isr.item);
      } else if s.isr == TellReceive || s.isr == TellDropped || s.isr == TellOverflow {
        TellAudible(s);
      }
    case ThreadStep =>
      assert Next(s, a).told == s.told && Next(s, a).locals == s.locals;
      if s.ring.Empty() {
        assert Next(s, a).ring == s.ring;
      }
  }

  lemma {:induction false} EveryRunAudible(s: State, actions: seq<Action>)
    requires Shape(s) && Conserved(s) && Untorn(s) && Audible(s)
    ensures Audible(Run(s, actions))
    decreases |actions|
  {
    if actions != [] {
      NextAudible(s, actions[0]);
      NextConserves(s, actions[0]);
      EveryRunAudible(Next(s, actions[0]), actions[1..]);
    }
  }

  /** From power-on, in every state any interleaving reaches: nothing is duplicated or
      reordered or torn; and whenever no handler is running, every frame lost at the full ring
      was signalled by its own run, every FIFO overflow is latched or was signalled after it
      happened, and a waiting frame was signalled after the ring was last empty. */
  lemma ReceivePathCorrect(s: State, actions: seq<Action>)
    requires Initial(s)
    ensures var t := Run(s, actions);
            && Pipe(t) == Survivors(t.frames.arrived, t.frames.lost) && Increasing(Pipe(t))
            && Untorn(t) && HandlerAhead(t)
            && (t.isr == Off ==>
                  && (forall r | r in t.told.ringDrops :: Signal(Overrun, r) in t.told.signals)
                  && (forall i | 0 <= i < |t.told.overflows| ::
                        t.rxovif || HeardSince(t.told.signals, t.told.overflows[i], Overrun))
                  && (t.ring.Contents() != [] ==> HeardSince(t.told.signals, t.told.emptyMark, Receive)))
  {
    s.ring.Capacity();
    EveryRunConserves(s, actions);
    EveryRunAudible(s, actions);
    var t := Run(s, actions);
    SurvivorsOrdered(t.frames.arrived, t.frames.lost);
    t.ring.Capacity();
  }

  /** A frame is lost in exactly two ways, and each leaves its mark. */
  lemma LossesAreMarked(s: State, a: Action, n: nat)
    requires Shape(s) && n in Next(s, a).frames.lost && n !in s.frames.lost
    ensures var t := Next(s, a);
            || (a.Arrive? && |s.fifo| == 4 && n == |s.frames.arrived|
                && t.told.overflows == s.told.overflows + [|s.told.signals|])
            || (a == IsrStep && s.isr.Released? && n == s.isr.item.no && s.ring.Full()
                && s.locals.run in t.told.ringDrops)
  {
    match a
    case Arrive(_) =>
    case IsrEnter =>
    case IsrStep =>
    case ThreadStep =>
  }

  predicate HistoryGrew(s: State, t: State) {
    s.told.overflows <= t.told.overflows && s.told.ringDrops <= t.told.ringDrops
  }

  lemma {:induction false} RunGrows(s: State, actions: seq<Action>)
    requires Shape(s)
    ensures HistoryGrew(s, Run(s, actions))
    decreases |actions|
  {
    if actions != [] {
      assert HistoryGrew(s, Next(s, actions[0]));
      RunGrows(Next(s, actions[0]), actions[1..]);
    }
  }

  /** The step of a run that loses a frame. */
  lemma {:induction false} LossFound(s: State, actions: seq<Action>, n: nat) returns (i: nat)
    requires Shape(s) && n in Run(s, actions).frames.lost && n !in s.frames.lost
    ensures i < |actions|
    ensures var u := Run(s, actions[..i]);
            && n !in u.frames.lost && n in Next(u, actions[i]).frames.lost
            && HistoryGrew(Next(u, actions[i]), Run(s, actions))
    decreases |actions|
  {
    var t := Next(s, actions[0]);
    if n in t.frames.lost {
      i := 0;
      assert actions[..0] == [];
      RunGrows(t, actions[1..]);
    } else {
      i := LossFound(t, actions[1..], n);
      assert actions[..i + 1][1..] == actions[1..][..i];
      i := i + 1;
    }
  }

  /** Every single lost frame is heard of. From power-on, whenever no handler is running: a frame
      lost at the full ring by its own handler run, a frame lost at the full FIFO by the latched
      flag or by a signal after its arrival. */
  lemma LossesAreHeard(s: State, actions: seq<Action>, n: nat) returns (i: nat)
    requires Initial(s) && Run(s, actions).isr == Off && n in Run(s, actions).frames.lost
    ensures i < |actions|
    ensures var u, t := Run(s, actions[..i]), Run(s, actions);
            || (actions[i].Arrive? && |u.fifo| == FIFO_DEPTH && n == |u.frames.arrived|
                && (t.rxovif || HeardSince(t.told.signals, |u.told.signals|, Overrun)))
            || (actions[i] == IsrStep && u.isr.Released? && n == u.isr.item.no && u.ring.Full()
                && Signal(Overrun, u.locals.run) in t.told.signals)
  {
    i := LossFound(s, actions, n);
    var u, t := Run(s, actions[..i]), Run(s, actions);
    LossesAreMarked(u, actions[i], n);
    ReceivePathCorrect(s, actions);
    if actions[i].Arrive? {
      assert t.told.overflows[|u.told.overflows|] == |u.told.signals|;
    }
  }

  // ------------------------------------------------------------------------------------
  // The drain ends
  // ------------------------------------------------------------------------------------

  /** Steps left to the handler if nothing else arrives. */
  function Rank(s: State): nat {
    match s.isr
    case Off => 0
    case Flags => 4 * |s.fifo| + 5
    case Test => 4 * |s.fifo| + 4
    case Wait => 4 * |s.fifo| + 3
    case Fetched(_) => 4 * |s.fifo| + 2
    case Released(_) => 4 * |s.fifo| + 5
    case TellReceive => 3
    case TellDropped => 2
    case TellOverflow => 1
  }

  function Arrivals(s: State, images: seq<Image>): (t: State)
    requires Shape(s) && HandlerAhead(s)
    ensures Shape(t) && HandlerAhead(t) && t.isr == s.isr
    decreases |images|
  {
    if images == [] then s else Arrivals(AfterArrival(s, images[0]), images[1..])
  }

  /** The drain loop, with late[k] arriving before its k-th step. It ends: the late arrivals run
      out, and then every step lowers the rank. */
  function Drain(s: State, late: seq<seq<Image>>): (t: State)
    requires Shape(s) && HandlerAhead(s) && (InLoop(s.isr) || s.isr == TellReceive)
    ensures Shape(t) && t.isr == TellReceive
    decreases |late|, Rank(s)
  {
    if s.isr == TellReceive then s
    else if late != [] then Drain(AfterIsr(Arrivals(s, late[0])), late[1..])
    else Drain(AfterIsr(s), [])
  }

  /** It ends with the hardware FIFO empty, however full the ring. */
  lemma {:induction false} DrainEmpties(s: State, late: seq<seq<Image>>)
    requires Shape(s) && HandlerAhead(s) && InLoop(s.isr)
    ensures Drain(s, late).fifo == []
    decreases |late|, Rank(s)
  {
    var now := if late != [] then Arrivals(s, late[0]) else s;
    var next := AfterIsr(now);
    if next.isr != TellReceive {
      DrainEmpties(next, if late != [] then late[1..] else []);
    }
  }

  /** The drain is a run of the step system. */
  lemma {:induction false} DrainIsRun(s: State, late: seq<seq<Image>>) returns (actions: seq<Action>)
    requires Shape(s) && HandlerAhead(s) && (InLoop(s.isr) || s.isr == TellReceive)
    ensures Run(s, actions) == Drain(s, late)
    ensures ThreadStep !in actions
    decreases |late|, Rank(s)
  {
    if s.isr == TellReceive {
      actions := [];
    } else {
      var before := [];
      if late != [] {
        before := ArrivalsAreRun(s, late[0]);
      }
      var now := Run(s, before);
      var rest := DrainIsRun(AfterIsr(now), if late != [] then late[1..] else []);
      actions := before + ([IsrStep] + rest);
      RunAppend(s, before, [IsrStep] + rest);
      assert ([IsrStep] + rest)[1..] == rest;
    }
  }

  lemma {:induction false} ArrivalsAreRun(s: State, images: seq<Image>) returns (actions: seq<Action>)
    requires Shape(s) && HandlerAhead(s)
    ensures Run(s, actions) == Arrivals(s, images)
    ensures ThreadStep !in actions
    decreases |images|
  {
    if images == [] {
      actions := [];
    } else {
      var rest := ArrivalsAreRun(AfterArrival(s, images[0]), images[1..]);
      actions := [Arrive(images[0])] + rest;
      assert actions[1..] == rest;
    }
  }

  // ------------------------------------------------------------------------------------
  // What one handler run does when nothing arrives meanwhile
  // ------------------------------------------------------------------------------------

  /** Frames of the FIFO the ring has room for. */
  function Kept(s: State): nat
    requires Shape(s)
  {
    if |s.fifo| <= s.ring.Room() then |s.fifo| else s.ring.Room()
  }

  /** Four steps: the oldest object leaves the FIFO and is stored or dropped. */
  function Round(s: State): (t: State)
    requires Shape(s) && s.isr == Test && s.fifo != []
    ensures Shape(t) && t.isr == Test && t.fifo == s.fifo[1..]
  {
    AfterIsr(AfterIsr(AfterIsr(AfterIsr(s))))
  }

  /** Everything a drain leaves alone. */
  predicate SameButRing(s: State, t: State) {
    && t.frames.delivered == s.frames.delivered && t.frames.arrived == s.frames.arrived
    && t.told.signals == s.told.signals && t.rxovif == s.rxovif && t.thread == s.thread
    && t.ring.tail == s.ring.tail && t.locals.ovEvent == s.locals.ovEvent && t.locals.run == s.locals.run
  }

  lemma DrainUnfold(s: State)
    requires Shape(s) && HandlerAhead(s) && InLoop(s.isr)
    ensures Drain(s, []) == Drain(AfterIsr(s), [])
  {}

  lemma RoundUnfold(s: State)
    requires Shape(s) && s.isr == Test && s.fifo != []
    ensures HandlerAhead(Round(s)) && Drain(s, []) == Drain(Round(s), [])
  {
    var s1 := AfterIsr(s);
    var s2 := AfterIsr(s1);
    var s3 := AfterIsr(s2);
    DrainUnfold(s);
    DrainUnfold(s1);
    DrainUnfold(s2);
    DrainUnfold(s3);
  }

  lemma RoundEffect(s: State)
    requires Shape(s) && s.isr == Test && s.fifo != []
    ensures Round(s) == AfterStore(s.(fifo := s.fifo[1..], isr := Released(s.fifo[0])), s.fifo[0])
    ensures var t := Round(s);
            && t.ring.Contents() == s.ring.Contents() + (if s.ring.Full() then [] else [s.fifo[0]])
            && t.locals == (if s.ring.Full() then s.locals.(dropped := true) else s.locals.(received := true))
            && SameButRing(s, t)
  {
    var x := s.fifo[0];
    assert AfterIsr(AfterIsr(AfterIsr(s))) == s.(fifo := s.fifo[1..], isr := Released(x));
    if !s.ring.Full() {
      s.ring.PushContents(x);
    }
  }

  lemma KeptByRound(s: State)
    requires Shape(s) && HandlerAhead(s) && s.isr == Test && s.fifo != []
    ensures var r := Round(s);
            && r.ring.Contents() + r.fifo[..Kept(r)] == s.ring.Contents() + s.fifo[..Kept(s)]
            && (Kept(s) > 0 <==> !s.ring.Full()) && (Kept(s) < |s.fifo| <==> s.ring.Full() || Kept(r) < |r.fifo|)
            && (s.ring.Full() ==> Kept(r) == 0)
  {
    var r := Round(s);
    RoundEffect(s);
    s.ring.Capacity();
    r.ring.Capacity();
    if s.ring.Full() {
      assert Kept(s) == 0 && Kept(r) == 0;
    } else {
      assert Kept(s) == 1 + Kept(r);
      assert s.fifo[..Kept(s)] == [s.fifo[0]] + r.fifo[..Kept(r)];
    }
  }

  lemma {:induction false} DrainNet(s: State)
    requires Shape(s) && HandlerAhead(s) && s.isr == Test
    ensures var t := Drain(s, []);
            && t.fifo == [] && SameButRing(s, t)
            && t.ring.Contents() == s.ring.Contents() + s.fifo[..Kept(s)]
            && t.locals.received == (s.locals.received || Kept(s) > 0)
            && t.locals.dropped == (s.locals.dropped || Kept(s) < |s.fifo|)
    decreases |s.fifo|
  {
    if s.fifo == [] {
      DrainUnfold(s);
      assert s.fifo[..Kept(s)] == [];
    } else {
      RoundEffect(s);
      RoundUnfold(s);
      KeptByRound(s);
      DrainNet(Round(s));
    }
  }

  /** The three signals that end a run. */
  function AfterTells(s: State): (t: State)
    requires Shape(s) && s.isr == TellReceive
    ensures Shape(t) && t.isr == Off
  {
    AfterIsr(AfterIsr(AfterIsr(s)))
  }

  /** A whole handler run with no arrival inside it. */
  function HandlerRun(s: State): (t: State)
    requires Shape(s) && s.isr == Off
    ensures Shape(t) && t.isr == Off
  {
    var e := AfterIsr(AfterEnter(s));
    if e.isr == Test then AfterTells(Drain(e, []))
    else if e.isr == TellOverflow then AfterIsr(e)
    else e
  }

  function SignalsOf(s: State, run: nat): seq<Signal>
    requires Shape(s)
  {
    (if Kept(s) > 0 then [Signal(Receive, run)] else [])
    + (if Kept(s) < |s.fifo| then [Signal(Overrun, run)] else [])
    + (if s.rxovif then [Signal(Overrun, run)] else [])
  }

  /** It moves as many frames as the ring has room for, oldest first, leaves the FIFO empty and
      its overflow flag clear, and announces receipt, ring overrun and FIFO overrun, in this order,
      each exactly if it happened. */
  lemma HandlerRunNet(s: State)
    requires Shape(s) && s.isr == Off
    ensures var t := HandlerRun(s);
            && t.fifo == [] && !t.rxovif
            && t.ring.Contents() == s.ring.Contents() + s.fifo[..Kept(s)]
            && t.frames.delivered == s.frames.delivered && t.frames.arrived == s.frames.arrived
            && t.thread == s.thread && t.ring.tail == s.ring.tail
            && t.told.signals == s.told.signals + SignalsOf(s, s.locals.run + 1)
  {
    var e := AfterIsr(AfterEnter(s));
    if e.isr == Test {
      DrainNet(e);
      assert Kept(e) == Kept(s);
    } else {
      assert s.fifo[..Kept(s)] == [];
    }
  }

  lemma {:induction false} DrainPushesAll(s: State)
    requires Shape(s) && HandlerAhead(s) && s.isr == Test
    ensures Drain(s, []).ring == s.ring.PushAll(s.fifo)
    decreases |s.fifo|
  {
    if s.fifo == [] {
      DrainUnfold(s);
    } else {
      RoundEffect(s);
      RoundUnfold(s);
      DrainPushesAll(Round(s));
    }
  }

  /** What a handler run does to the ring: the FIFO's frames stored one after the other. */
  lemma HandlerPushesAll(s: State)
    requires Shape(s) && s.isr == Off
    ensures HandlerRun(s).ring == s.ring.PushAll(s.fifo)
  {
    var e := AfterIsr(AfterEnter(s));
    if e.isr == Test {
      DrainPushesAll(e);
    }
  }
}
