/** Both directions together: a message sent through one driver and read back through a receiver. */
module EndToEnd {
  import opened Bits
  import opened FrameCodec
  import opened MessageRam
  import opened TimedWait
  import opened HalModel
  import opened HalDriver
  import opened CmsisModel
  import opened CmsisDriver
  import opened RxRing
  import opened RxPipeline
  import opened RxPath

  /** An accepted send leaves an object that carries the message. */
  lemma SentCarries(x: Instance, objIdx: nat, info: Option<MsgInfo>, data: Option<seq<u8>>, size: u8, stale: Payload,
                    room: HalModel.Reply, words: MsgObject)
    requires data.Some? ==> size <= |data.value|
    requires AfterSend(x, objIdx, info, data, size, stale, room).1 >= 0
    requires info.Some? && size <= PAYLOAD_BYTES && Encode(SendFrame(info.value, SentBytes(data, size), stale)) <= words
    ensures Carries(ObjectImage(words), info.value, SentBytes(data, size))
  {
    SendAcceptedIff(x, objIdx, info, data, size, stale, room);
  }

  /** A frame arriving behind those that wait, all of which fit the ring, will be kept itself. */
  lemma ArrivalIsKept(s: State, image: Image)
    requires Sound(s) && |s.fifo| < FIFO_DEPTH && |s.fifo| < s.ring.Room()
    ensures var t := Next(s, Arrive(image));
            Sound(t) && |s.fifo| < Kept(t) && t.isr == s.isr && t.thread == s.thread
  {
    NextConserves(s, Arrive(image));
  }

  /** One object's arrival, and the reads up to it. */
  method ArriveAndDeliver(r: Receiver, words: MsgObject, buffer: array<u8>) returns (rc: int, out: MsgInfo)
    requires r.Valid() && |r.fifo| < FIFO_DEPTH && |r.fifo| < r.sys.ring.Room() && buffer.Length == PAYLOAD_BYTES
    modifies r, r.ring, buffer
    ensures r.Valid() && 0 <= rc <= PAYLOAD_BYTES
    ensures forall info, data | Carries(ObjectImage(words), info, data) :: SameMessage(info, data, out, buffer[..rc])
  {
    var ahead := |r.fifo|;
    ArrivalIsKept(r.sys, ObjectImage(words));
    r.ArriveOne(words);
    rc, out := Deliver(r, ahead, buffer);
  }

  /** The object an accepted send leaves in message RAM. */
  method Send(d: Driver, i: nat, objIdx: nat, info: Option<MsgInfo>, data: array?<u8>, size: u8, room: Poll, slot: nat)
    returns (sent: int, words: MsgObject)
    requires d.Valid() && i < INST_COUNT && slot < TXQ_DEPTH && (data != null ==> size <= data.Length)
    requires d.ctx[i].powered && d.hal.node[i].initialized ==> Ends(room, d.hal.node[i].timeoutMs)
    modifies d.hal, d.hal.ram[i]
    ensures d.Valid() && words == ObjectAt(d.hal.ram[i][..], slot)
    ensures sent >= 0 ==> info.Some? && Carries(ObjectImage(words), info.value, SentBytes(old(Given(data)), size))
  {
    ghost var bytes, x := Given(data), d.State(i);
    sent := d.MessageSend(i, objIdx, info, data, size, room, slot);
    words := d.hal.ram[i][slot * OBJECT_WORDS..slot * OBJECT_WORDS + OBJECT_WORDS];
    assert words == ObjectAt(d.hal.ram[i][..], slot);
    if sent >= 0 {
      SentCarries(x, objIdx, info, bytes, size, Blank(), ReplyTo(room, x.hal.node.timeoutMs), words);
    }
  }

  /** If the driver accepts a message and the object it wrote arrives unchanged at a receiver with
      room for it, the receiver's reads return that message after the frames ahead of it. */
  method SendAndReceive(d: Driver, i: nat, objIdx: nat, info: Option<MsgInfo>, data: array?<u8>, size: u8,
                        room: Poll, slot: nat, r: Receiver, buffer: array<u8>)
    returns (sent: int, read: int, out: MsgInfo)
    requires d.Valid() && i < INST_COUNT && slot < TXQ_DEPTH && (data != null ==> size <= data.Length)
    requires d.ctx[i].powered && d.hal.node[i].initialized ==> Ends(room, d.hal.node[i].timeoutMs)
    requires r.Valid() && |r.fifo| < FIFO_DEPTH && |r.fifo| < r.sys.ring.Room() && buffer.Length == PAYLOAD_BYTES
    modifies d.hal, d.hal.ram[i], r, r.ring, buffer
    ensures d.Valid() && r.Valid()
    ensures sent >= 0 ==>
              && info.Some? && 0 <= read <= PAYLOAD_BYTES && |SentBytes(old(Given(data)), size)| <= PAYLOAD_BYTES
              && SameMessage(info.value, SentBytes(old(Given(data)), size), out, buffer[..read])
  {
    read, out := 0, MsgInfo(0, false, false, false, false, 0);
    var words;
    sent, words := Send(d, i, objIdx, info, data, size, room, slot);
    if sent >= 0 {
      read, out := ArriveAndDeliver(r, words, buffer);
    }
  }
}
