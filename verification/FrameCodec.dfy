/** The message object format: length codes, identifier and control words, payload words, and
    the CMSIS message information on either side of them. */
module FrameCodec {
  import opened Bits

  const PAYLOAD_BYTES := 64
  const OBJECT_WORDS := 18

  type Payload = s: seq<u8> | |s| == PAYLOAD_BYTES witness seq(PAYLOAD_BYTES, _ => 0)

  /** One frame. Bytes of data past len are whatever the buffer held before. */
  datatype Frame = Frame(id: u32, extended: bool, fd: bool, brs: bool, len: u8, data: Payload)

  // ------------------------------------------------------------------------------------
  // Length codes
  // ------------------------------------------------------------------------------------

  const DLC_LENGTHS: seq<nat> := [0, 1, 2, 3, 4, 5, 6, 7, 8, 12, 16, 20, 24, 32, 48, 64]

  function DlcToLen(dlc: nat): (len: nat)
    ensures len <= PAYLOAD_BYTES
  {
    DLC_LENGTHS[dlc % 16]
  }

  function LenToDlc(len: nat): (dlc: nat)
    ensures dlc < 16
  {
    if len <= 8 then len
    else if len <= 12 then 9
    else if len <= 16 then 10
    else if len <= 20 then 11
    else if len <= 24 then 12
    else if len <= 32 then 13
    else if len <= 48 then 14
    else 15
  }

  /** The code is the least one whose length covers the payload. */
  lemma LenToDlcLeast(len: nat, dlc: nat)
    requires len <= PAYLOAD_BYTES && dlc < 16
    ensures LenToDlc(len) <= dlc <==> len <= DlcToLen(dlc)
  {
    DlcTable(dlc);
  }

  lemma DlcTable(dlc: nat)
    requires dlc < 16
    ensures DlcToLen(dlc) == if dlc <= 8 then dlc else if dlc <= 12 then 4 * dlc - 24 else 16 * dlc - 176
  {}

  lemma DlcInverse(dlc: nat)
    requires dlc < 16
    ensures LenToDlc(DlcToLen(dlc)) == dlc
  {
    DlcTable(dlc);
  }

  /** Bytes on the wire for a payload of len bytes. */
  function WireLen(len: nat): nat {
    DlcToLen(LenToDlc(len))
  }

  // ------------------------------------------------------------------------------------
  // Identifier word
  // ------------------------------------------------------------------------------------

  const SID_MASK := 0x7FF
  const EID_MASK := 0x3_FFFF

  /** Bit positions used by the header words, and the bit the identifier is split at. As with the
      timing words, proofs use only the powers of two these stand for. */
  datatype HeaderPos = HeaderPos(eid: nat, split: nat, ide: nat, brs: nat, fdf: nat)
  const HEADER := HeaderPos(11, 18, 4, 6, 7)

  function BuildIdWord(id: u32, extended: bool, h: HeaderPos): nat {
    if extended then
      var sid := And(Shr(id, h.split), SID_MASK);
      var eid := And(id, EID_MASK);
      Or(sid, Shl(eid, h.eid))
    else
      And(id, SID_MASK)
  }

  function ParseIdWord(w: u32, extended: bool, h: HeaderPos): nat {
    var sid := And(w, SID_MASK);
    var eid := And(Shr(w, h.eid), EID_MASK);
    if extended then Or(Shl(sid, h.split), eid) else sid
  }

  predicate HeaderPowers(h: HeaderPos) {
    && Pow2(h.eid) == 0x800 && Pow2(h.split) == 0x4_0000
    && Pow2(h.ide) == 0x10 && Pow2(h.brs) == 0x40 && Pow2(h.fdf) == 0x80
  }

  lemma MaskPowers(h: HeaderPos, a: nat)
    requires HeaderPowers(h)
    ensures And(a, SID_MASK) == a % 0x800 && And(a, EID_MASK) == a % 0x4_0000
  {
    AndLowMask(a, h.eid);
    AndLowMask(a, h.split);
  }

  lemma IdWordIs(id: u32, extended: bool, h: HeaderPos)
    requires HeaderPowers(h)
    ensures BuildIdWord(id, extended, h)
            == if extended then (id / 0x4_0000) % 0x800 + (id % 0x4_0000) * 0x800 else id % 0x800
    ensures BuildIdWord(id, extended, h) < 0x2000_0000
  {
    MaskPowers(h, id);
    if extended {
      ShrDivides(id, h.split);
      MaskPowers(h, id / 0x4_0000);
      ShlIs(id % 0x4_0000, h.eid, 0x800);
      OrAdds((id / 0x4_0000) % 0x800, (id % 0x4_0000) * 0x800, h.eid);
    }
  }

  lemma ParsedIdIs(w: u32, extended: bool, h: HeaderPos)
    requires HeaderPowers(h)
    ensures ParseIdWord(w, extended, h)
            == if extended then (w % 0x800) * 0x4_0000 + (w / 0x800) % 0x4_0000 else w % 0x800
    ensures ParseIdWord(w, extended, h) < 0x2000_0000
  {
    MaskPowers(h, w);
    ShrDivides(w, h.eid);
    MaskPowers(h, w / 0x800);
    if extended {
      ShlIs(w % 0x800, h.split, 0x4_0000);
      OrAdds((w / 0x800) % 0x4_0000, (w % 0x800) * 0x4_0000, h.split);
    }
  }

  /** Parsing a built word gives the identifier back, cut to its 29 or 11 bits. */
  lemma IdRoundTrip(id: u32, extended: bool, h: HeaderPos)
    requires HeaderPowers(h)
    ensures var w := BuildIdWord(id, extended, h);
            w < U32 && ParseIdWord(w, extended, h) == id % (if extended then 0x2000_0000 else 0x800)
  {
    IdWordIs(id, extended, h);
    ParsedIdIs(BuildIdWord(id, extended, h), extended, h);
    if extended {
      SplitId(id, BuildIdWord(id, extended, h));
    }
  }

  lemma SplitId(id: u32, w: nat)
    requires w == (id / 0x4_0000) % 0x800 + (id % 0x4_0000) * 0x800
    ensures (w % 0x800) * 0x4_0000 + (w / 0x800) % 0x4_0000 == id % 0x2000_0000
  {
    var s, e := (id / 0x4_0000) % 0x800, id % 0x4_0000;
    assert w % 0x800 == s && w / 0x800 == e;
    assert id == (id / 0x2000_0000) * 0x2000_0000 + s * 0x4_0000 + e;
  }

  /** Building from a parsed word gives the word back, cut likewise. */
  lemma IdWordRoundTrip(w: u32, extended: bool, h: HeaderPos)
    requires HeaderPowers(h)
    ensures var id := ParseIdWord(w, extended, h);
            id < U32 && BuildIdWord(id, extended, h) == w % (if extended then 0x2000_0000 else 0x800)
  {
    ParsedIdIs(w, extended, h);
    IdWordIs(ParseIdWord(w, extended, h), extended, h);
    if extended {
      JoinId(w, ParseIdWord(w, extended, h));
    }
  }

  lemma JoinId(w: u32, id: nat)
    requires id == (w % 0x800) * 0x4_0000 + (w / 0x800) % 0x4_0000
    ensures (id / 0x4_0000) % 0x800 + (id % 0x4_0000) * 0x800 == w % 0x2000_0000
  {
    var s, e := w % 0x800, (w / 0x800) % 0x4_0000;
    assert id / 0x4_0000 == s && id % 0x4_0000 == e;
    assert w == (w / 0x2000_0000) * 0x2000_0000 + e * 0x800 + s;
  }

  // ------------------------------------------------------------------------------------
  // Control word
  // ------------------------------------------------------------------------------------

  function Flag(on: bool, word: nat, bit: nat): nat {
    if on then Or(word, Pow2(bit)) else word
  }

  const DLC_MASK := 0xF

  /** The bit-rate switch is only ever set on an FD frame. */
  function BuildCtrlWord(dlc: nat, extended: bool, fd: bool, brs: bool, h: HeaderPos): nat {
    Flag(fd && brs, Flag(fd, Flag(extended, And(dlc, DLC_MASK), h.ide), h.fdf), h.brs)
  }

  predicate HasFlag(word: nat, bit: nat) {
    And(word, Pow2(bit)) != 0
  }

  lemma {:induction false} OrSetsBit(word: nat, k: nat)
    requires (word / Pow2(k)) % 2 == 0
    ensures Or(word, Pow2(k)) == word + Pow2(k)
  {
    if word == 0 {
    } else if k == 0 {
      assert word % 2 == 0;
      assert Or(word, 1) == 2 * Or(word / 2, 0) + 1;
    } else {
      HalfDiv(word, Pow2(k - 1));
      OrSetsBit(word / 2, k - 1);
    }
  }

  function Bit(on: bool): nat {
    if on then 1 else 0
  }

  lemma FlagAdds(on: bool, word: nat, bit: nat, p: nat)
    requires Pow2(bit) == p && (word / p) % 2 == 0
    ensures Flag(on, word, bit) == word + Bit(on) * p
  {
    if on {
      OrSetsBit(word, bit);
    }
  }

  lemma CtrlFlags(w0: nat, ide: bool, fdf: bool, brs: bool, h: HeaderPos)
    requires HeaderPowers(h) && w0 < 0x10
    ensures Flag(brs, Flag(fdf, Flag(ide, w0, h.ide), h.fdf), h.brs)
            == w0 + 0x10 * Bit(ide) + 0x80 * Bit(fdf) + 0x40 * Bit(brs)
  {
    FlagAdds(ide, w0, h.ide, 0x10);
    var w1 := w0 + 0x10 * Bit(ide);
    assert w1 < 0x20;
    FlagAdds(fdf, w1, h.fdf, 0x80);
    var w2 := w1 + 0x80 * Bit(fdf);
    assert (w2 / 0x40) % 2 == 0 by { assert w2 / 0x40 == 2 * Bit(fdf); }
    FlagAdds(brs, w2, h.brs, 0x40);
  }

  lemma CtrlBits(c: nat, dlc: nat, ide: bool, fdf: bool, brs: bool)
    requires dlc < 16 && c == dlc + 0x10 * Bit(ide) + 0x80 * Bit(fdf) + 0x40 * Bit(brs)
    ensures c < 0x100 && c % 0x10 == dlc && (c / 0x20) % 2 == 0
    ensures (c / 0x10) % 2 == Bit(ide) && (c / 0x80) % 2 == Bit(fdf) && (c / 0x40) % 2 == Bit(brs)
  {}

  lemma HasFlagIs(word: nat, bit: nat, p: nat)
    requires Pow2(bit) == p
    ensures HasFlag(word, bit) <==> (word / p) % 2 == 1
  {
    AndOneBit(word, bit);
  }

  /** What any control word the driver writes says, read bit by bit. */
  lemma CtrlWordReads(dlc: nat, extended: bool, fd: bool, brs: bool, h: HeaderPos)
    requires HeaderPowers(h) && dlc < 16
    ensures var c := BuildCtrlWord(dlc, extended, fd, brs, h);
            && c < U32
            && And(c, DLC_MASK) == dlc
            && (HasFlag(c, h.ide) <==> extended)
            && (HasFlag(c, h.fdf) <==> fd)
            && (HasFlag(c, h.brs) <==> fd && brs)
  {
    assert And(dlc, DLC_MASK) == dlc by { AndLowMask(dlc, h.ide); }
    CtrlFlags(dlc, extended, fd, fd && brs, h);
    var c := BuildCtrlWord(dlc, extended, fd, brs, h);
    CtrlBits(c, dlc, extended, fd, fd && brs);
    assert And(c, DLC_MASK) == c % 0x10 by { AndLowMask(c, h.ide); }
    HasFlagIs(c, h.ide, 0x10);
    HasFlagIs(c, h.fdf, 0x80);
    HasFlagIs(c, h.brs, 0x40);
  }

  // ------------------------------------------------------------------------------------
  // Payload words
  // ------------------------------------------------------------------------------------

  /** Byte i of the payload as transmitted: zero past the length. */
  function ByteAt(data: seq<u8>, len: nat, i: nat): u8
    requires len <= |data|
  {
    if i < len then data[i] else 0
  }

  function WordOf(b0: u8, b1: u8, b2: u8, b3: u8, s: Shifts): nat {
    Or(Or(Or(b0, Shl(b1, s.b1)), Shl(b2, s.b2)), Shl(b3, s.b3))
  }

  datatype Shifts = Shifts(b1: nat, b2: nat, b3: nat)
  const BYTE_POS := Shifts(8, 16, 24)

  predicate ShiftPowers(s: Shifts) {
    Pow2(s.b1) == 0x100 && Pow2(s.b2) == 0x1_0000 && Pow2(s.b3) == 0x100_0000
  }

  lemma WordSum(b0: u8, b1: u8, b2: u8, b3: u8, s: Shifts)
    requires ShiftPowers(s)
    ensures WordOf(b0, b1, b2, b3, s) == b0 + b1 * 0x100 + b2 * 0x1_0000 + b3 * 0x100_0000
  {
    ShlIs(b1, s.b1, 0x100);
    ShlIs(b2, s.b2, 0x1_0000);
    ShlIs(b3, s.b3, 0x100_0000);
    MultipleMod(b1, 0x100);
    MultipleMod(b2, 0x1_0000);
    MultipleMod(b3, 0x100_0000);
    var w1 := b0 + b1 * 0x100;
    assert Or(b0, Shl(b1, s.b1)) == w1 by { OrAdds(b0, b1 * 0x100, s.b1); }
    var w2 := w1 + b2 * 0x1_0000;
    assert Or(w1, Shl(b2, s.b2)) == w2 by { OrAdds(w1, b2 * 0x1_0000, s.b2); }
    assert Or(w2, Shl(b3, s.b3)) == w2 + b3 * 0x100_0000 by { OrAdds(w2, b3 * 0x100_0000, s.b3); }
  }

  /** (uint8_t)((word >> shift) & 0xFF). */
  function ByteOf(word: nat, shift: nat): u8 {
    And(Shr(word, shift), 0xFF) % 0x100
  }

  function Lane(s: Shifts, lane: nat): nat {
    if lane == 0 then 0 else if lane == 1 then s.b1 else if lane == 2 then s.b2 else s.b3
  }

  lemma ByteOfIs(word: nat, s: Shifts, lane: nat, p: nat)
    requires ShiftPowers(s) && lane < 4 && Pow2(Lane(s, lane)) == p
    ensures ByteOf(word, Lane(s, lane)) == (word / p) % 0x100
  {
    ShrDivides(word, Lane(s, lane));
    AndLowMask(word / p, s.b1);
  }

  /** A packed word unpacks to its four bytes. */
  lemma WordUnpacks(b0: u8, b1: u8, b2: u8, b3: u8, s: Shifts)
    requires ShiftPowers(s)
    ensures var w := WordOf(b0, b1, b2, b3, s);
            w < U32 && forall lane | 0 <= lane < 4 :: ByteOf(w, Lane(s, lane)) == [b0, b1, b2, b3][lane]
  {
    WordSum(b0, b1, b2, b3, s);
    var w := WordOf(b0, b1, b2, b3, s);
    ByteOfIs(w, s, 0, 1);
    ByteOfIs(w, s, 1, 0x100);
    ByteOfIs(w, s, 2, 0x1_0000);
    ByteOfIs(w, s, 3, 0x100_0000);
    BytesOfSum(w, b0, b1, b2, b3);
  }

  lemma BytesOfSum(w: nat, b0: u8, b1: u8, b2: u8, b3: u8)
    requires w == b0 + b1 * 0x100 + b2 * 0x1_0000 + b3 * 0x100_0000
    ensures w < U32 && (w / 1) % 0x100 == b0 && (w / 0x100) % 0x100 == b1
    ensures (w / 0x1_0000) % 0x100 == b2 && (w / 0x100_0000) % 0x100 == b3
  {
    assert w / 0x100 == b1 + b2 * 0x100 + b3 * 0x1_0000;
    assert w / 0x1_0000 == b2 + b3 * 0x100;
    assert w / 0x100_0000 == b3;
  }

  // ------------------------------------------------------------------------------------
  // Whole objects
  // ------------------------------------------------------------------------------------

  lemma HeaderIs()
    ensures HeaderPowers(HEADER) && ShiftPowers(BYTE_POS)
  {
    Pow2Values();
  }

  function PayloadWords(len: nat): nat {
    (len + 3) / 4
  }

  /** Payload word w: bytes 4w to 4w + 3, those past the length being zero. */
  function PackWord(data: seq<u8>, len: nat, w: nat): u32
    requires len <= |data|
  {
    HeaderIs();
    WordUnpacks(ByteAt(data, len, 4 * w), ByteAt(data, len, 4 * w + 1), ByteAt(data, len, 4 * w + 2),
                ByteAt(data, len, 4 * w + 3), BYTE_POS);
    WordOf(ByteAt(data, len, 4 * w), ByteAt(data, len, 4 * w + 1), ByteAt(data, len, 4 * w + 2),
           ByteAt(data, len, 4 * w + 3), BYTE_POS)
  }

  function IdWord(f: Frame): u32 {
    HeaderIs();
    IdWordIs(f.id, f.extended, HEADER);
    BuildIdWord(f.id, f.extended, HEADER)
  }

  function CtrlWord(f: Frame): u32 {
    HeaderIs();
    CtrlWordReads(LenToDlc(f.len), f.extended, f.fd, f.brs, HEADER);
    BuildCtrlWord(LenToDlc(f.len), f.extended, f.fd, f.brs, HEADER)
  }

  /** The words transmit writes: header, then the payload rounded up to its length code. */
  function Encode(f: Frame): (words: seq<u32>)
    requires f.len <= PAYLOAD_BYTES
    ensures |words| == 2 + PayloadWords(WireLen(f.len)) <= OBJECT_WORDS
  {
    [IdWord(f), CtrlWord(f)] + seq(PayloadWords(WireLen(f.len)), (w: nat) => PackWord(f.data, f.len, w))
  }

  /** The frame receive makes of an object, in a buffer that held stale bytes. */
  function Decode(words: seq<u32>, stale: Payload): (f: Frame)
    requires |words| == OBJECT_WORDS
    ensures f.len <= PAYLOAD_BYTES
  {
    var extended := HasFlag(words[1], HEADER.ide);
    var len := DlcToLen(And(words[1], DLC_MASK));
    HeaderIs();
    ParsedIdIs(words[0], extended, HEADER);
    Frame(ParseIdWord(words[0], extended, HEADER), extended,
          HasFlag(words[1], HEADER.fdf), HasFlag(words[1], HEADER.brs), len,
          seq(PAYLOAD_BYTES, i requires 0 <= i < PAYLOAD_BYTES =>
            if i < len then ByteOf(words[2 + i / 4], Lane(BYTE_POS, i % 4)) else stale[i]))
  }

  lemma PackedByte(data: seq<u8>, len: nat, i: nat)
    requires len <= |data|
    ensures ByteOf(PackWord(data, len, i / 4), Lane(BYTE_POS, i % 4)) == ByteAt(data, len, i)
  {
    HeaderIs();
    var w := i / 4;
    WordUnpacks(ByteAt(data, len, 4 * w), ByteAt(data, len, 4 * w + 1), ByteAt(data, len, 4 * w + 2),
                ByteAt(data, len, 4 * w + 3), BYTE_POS);
    assert i == 4 * w + i % 4;
    assert ByteAt(data, len, i) == [ByteAt(data, len, 4 * w), ByteAt(data, len, 4 * w + 1),
                                    ByteAt(data, len, 4 * w + 2), ByteAt(data, len, 4 * w + 3)][i % 4];
  }

  /** Decoding what was encoded: the identifier cut to its width, the bit-rate switch only on FD
      frames, the length rounded up, the payload padded with zeros. What the object held past
      the written words, and the buffer past the length, does not matter. */
  lemma DecodeEncode(f: Frame, words: seq<u32>, stale: Payload)
    requires f.len <= PAYLOAD_BYTES && |words| == OBJECT_WORDS && Encode(f) <= words
    ensures var g := Decode(words, stale);
            && g.extended == f.extended
            && g.id == f.id % (if f.extended then 0x2000_0000 else 0x800)
            && g.fd == f.fd && g.brs == (f.fd && f.brs)
            && g.len == WireLen(f.len) && f.len <= g.len
            && forall i | 0 <= i < g.len :: g.data[i] == ByteAt(f.data, f.len, i)
  {
    HeaderIs();
    assert words[0] == Encode(f)[0] && words[1] == Encode(f)[1];
    CtrlWordReads(LenToDlc(f.len), f.extended, f.fd, f.brs, HEADER);
    IdRoundTrip(f.id, f.extended, HEADER);
    LenToDlcLeast(f.len, LenToDlc(f.len));
    var g := Decode(words, stale);
    forall i | 0 <= i < g.len ensures g.data[i] == ByteAt(f.data, f.len, i) {
      assert words[2 + i / 4] == Encode(f)[2 + i / 4] == PackWord(f.data, f.len, i / 4);
      PackedByte(f.data, f.len, i);
    }
  }

  /** Only the frame's own bytes reach the object. */
  lemma EncodeIgnoresStale(f: Frame, g: Frame)
    requires f.len == g.len <= PAYLOAD_BYTES && f.data[..f.len] == g.data[..g.len]
    requires f.id == g.id && f.extended == g.extended && f.fd == g.fd && f.brs == g.brs
    ensures Encode(f) == Encode(g)
  {
    forall w: nat ensures PackWord(f.data, f.len, w) == PackWord(g.data, g.len, w) {
      assert forall i | 0 <= i < f.len :: f.data[i] == f.data[..f.len][i] == g.data[..g.len][i] == g.data[i];
    }
  }

  /** The control word of a frame is this number: length code, IDE at bit 4, BRS at bit 6 and FDF at
      bit 7, and every other bit clear, RTR at bit 5 among them. */
  predicate IsControlWord(word: nat, len: nat, extended: bool, fd: bool, brs: bool) {
    word == LenToDlc(len) + 0x10 * Bit(extended) + 0x40 * Bit(fd && brs) + 0x80 * Bit(fd)
  }

  lemma CtrlWordIs(f: Frame)
    requires f.len <= PAYLOAD_BYTES
    ensures IsControlWord(CtrlWord(f), f.len, f.extended, f.fd, f.brs)
  {
    HeaderIs();
    CtrlNumber(LenToDlc(f.len), f.extended, f.fd, f.brs, HEADER);
  }

  lemma CtrlNumber(dlc: nat, extended: bool, fd: bool, brs: bool, h: HeaderPos)
    requires HeaderPowers(h) && dlc < 16
    ensures BuildCtrlWord(dlc, extended, fd, brs, h)
            == dlc + 0x10 * Bit(extended) + 0x40 * Bit(fd && brs) + 0x80 * Bit(fd)
  {
    assert And(dlc, DLC_MASK) == dlc by { AndLowMask(dlc, h.ide); }
    CtrlFlags(dlc, extended, fd, fd && brs, h);
  }

  /** Every word of an encoded frame as a number: a standard identifier in the low eleven bits, an
      extended one with its upper eleven bits there and its lower eighteen above them; the control
      word; four bytes a word, the first one lowest, and zeros past the length. */
  lemma EncodedWords(f: Frame)
    requires f.len <= PAYLOAD_BYTES
    ensures var words := Encode(f);
            && |words| == 2 + (DlcToLen(LenToDlc(f.len)) + 3) / 4
            && words[0] == (if f.extended then (f.id / 0x4_0000) % 0x800 + (f.id % 0x4_0000) * 0x800 else f.id % 0x800)
            && IsControlWord(words[1], f.len, f.extended, f.fd, f.brs)
            && forall w | 0 <= w < |words| - 2 ::
                 words[2 + w] == ByteAt(f.data, f.len, 4 * w) + ByteAt(f.data, f.len, 4 * w + 1) * 0x100
                                 + ByteAt(f.data, f.len, 4 * w + 2) * 0x1_0000
                                 + ByteAt(f.data, f.len, 4 * w + 3) * 0x100_0000
  {
    HeaderIs();
    IdWordIs(f.id, f.extended, HEADER);
    CtrlWordIs(f);
    var words := Encode(f);
    forall w | 0 <= w < |words| - 2
      ensures words[2 + w] == ByteAt(f.data, f.len, 4 * w) + ByteAt(f.data, f.len, 4 * w + 1) * 0x100
                              + ByteAt(f.data, f.len, 4 * w + 2) * 0x1_0000
                              + ByteAt(f.data, f.len, 4 * w + 3) * 0x100_0000
    {
      assert words[2 + w] == PackWord(f.data, f.len, w);
      WordSum(ByteAt(f.data, f.len, 4 * w), ByteAt(f.data, f.len, 4 * w + 1), ByteAt(f.data, f.len, 4 * w + 2),
              ByteAt(f.data, f.len, 4 * w + 3), BYTE_POS);
    }
  }

  lemma LaneValue(word: u32, lane: nat)
    requires lane < 4
    ensures ByteOf(word, Lane(BYTE_POS, lane))
            == (word / (if lane == 0 then 1 else if lane == 1 then 0x100
                        else if lane == 2 then 0x1_0000 else 0x100_0000)) % 0x100
  {
    HeaderIs();
    var p := if lane == 0 then 1 else if lane == 1 then 0x100 else if lane == 2 then 0x1_0000 else 0x100_0000;
    ByteOfIs(word, BYTE_POS, lane, p);
  }

  lemma DecodedHeader(words: seq<u32>, stale: Payload, h: HeaderPos)
    requires |words| == OBJECT_WORDS && h == HEADER && HeaderPowers(h)
    ensures var g, c := Decode(words, stale), words[1];
            && (g.extended <==> (c / 0x10) % 2 == 1)
            && (g.brs <==> (c / 0x40) % 2 == 1)
            && (g.fd <==> (c / 0x80) % 2 == 1)
            && g.id == (if g.extended then (words[0] % 0x800) * 0x4_0000 + (words[0] / 0x800) % 0x4_0000
                        else words[0] % 0x800)
            && g.len == DlcToLen(c % 0x10)
  {
    var c := words[1];
    HasFlagIs(c, h.ide, 0x10);
    HasFlagIs(c, h.brs, 0x40);
    HasFlagIs(c, h.fdf, 0x80);
    assert And(c, DLC_MASK) == c % 0x10 by { AndLowMask(c, h.ide); }
    ParsedIdIs(words[0], HasFlag(c, h.ide), h);
  }

  /** What receive makes of any object at all, whoever wrote it: the bits it reads, and bytes of the
      buffer past the length as they were. */
  lemma DecodedFields(words: seq<u32>, stale: Payload)
    requires |words| == OBJECT_WORDS
    ensures var g, c := Decode(words, stale), words[1];
            && (g.extended <==> (c / 0x10) % 2 == 1)
            && (g.brs <==> (c / 0x40) % 2 == 1)
            && (g.fd <==> (c / 0x80) % 2 == 1)
            && g.id == (if g.extended then (words[0] % 0x800) * 0x4_0000 + (words[0] / 0x800) % 0x4_0000
                        else words[0] % 0x800)
            && g.len == DlcToLen(c % 0x10)
            && forall i | 0 <= i < PAYLOAD_BYTES ::
                 g.data[i] == if i >= g.len then stale[i]
                              else (words[2 + i / 4] / [1, 0x100, 0x1_0000, 0x100_0000][i % 4]) % 0x100
  {
    HeaderIs();
    DecodedHeader(words, stale, HEADER);
    var g := Decode(words, stale);
    forall i | 0 <= i < g.len
      ensures g.data[i] == (words[2 + i / 4] / [1, 0x100, 0x1_0000, 0x100_0000][i % 4]) % 0x100
    {
      LaneValue(words[2 + i / 4], i % 4);
    }
  }

  /** What every object in the transmit queue satisfies: a data frame, a bit-rate switch only on FD
      frames, and at most eight bytes on classic ones. */
  predicate ObjectConsistent(ctrl: nat) {
    && ctrl < 0x100 && (ctrl / 0x20) % 2 == 0
    && ((ctrl / 0x40) % 2 == 1 ==> (ctrl / 0x80) % 2 == 1)
    && ((ctrl / 0x80) % 2 == 0 ==> ctrl % 0x10 <= 8)
  }

  lemma EncodedConsistent(f: Frame)
    requires f.len <= PAYLOAD_BYTES && (f.fd || f.len <= 8)
    ensures ObjectConsistent(CtrlWord(f)) && ((CtrlWord(f) / 0x80) % 2 == 1 <==> f.fd)
  {
    CtrlWordIs(f);
    CtrlBits(CtrlWord(f), LenToDlc(f.len), f.extended, f.fd, f.fd && f.brs);
  }

  // ------------------------------------------------------------------------------------
  // CMSIS message information
  // ------------------------------------------------------------------------------------

  const ARM_DRIVER_OK := 0
  const ARM_DRIVER_ERROR := -1
  const ARM_DRIVER_ERROR_TIMEOUT := -3
  const ARM_DRIVER_ERROR_UNSUPPORTED := -4
  const ARM_DRIVER_ERROR_PARAMETER := -5

  const CAN_OBJ_TX := 0
  const CAN_OBJ_RX := 1

  datatype MsgInfo = MsgInfo(id: u32, rtr: bool, edl: bool, brs: bool, esi: bool, dlc: nat)

  datatype CmsisId = CmsisId(ide: nat, ext: nat, std: nat)
  const CMSIS_ID := CmsisId(31, 29, 11)
  const IDE_MASK := 0x8000_0000
  const EXT_ID_MASK := 0x1FFF_FFFF
  const STD_ID_MASK := 0x7FF

  predicate CmsisPowers(c: CmsisId) {
    Pow2(c.ide) == 0x8000_0000 && Pow2(c.ext) == 0x2000_0000 && Pow2(c.std) == 0x800
  }

  lemma CmsisIs()
    ensures CmsisPowers(CMSIS_ID)
  {
    Pow2Values();
  }

  function IsExtended(id: u32): bool {
    And(id, IDE_MASK) != 0
  }

  function HalId(id: u32): nat {
    if IsExtended(id) then And(id, EXT_ID_MASK) else And(id, STD_ID_MASK)
  }

  function CmsisIdOf(id: u32, extended: bool): nat {
    if extended then Or(And(id, EXT_ID_MASK), IDE_MASK) else And(id, STD_ID_MASK)
  }

  lemma MasksAre(id: u32, c: CmsisId)
    requires CmsisPowers(c)
    ensures And(id, EXT_ID_MASK) == id % 0x2000_0000 && And(id, STD_ID_MASK) == id % 0x800
  {
    AndLowMask(id, c.ext);
    AndLowMask(id, c.std);
  }

  lemma IdeBitIs(id: u32, c: CmsisId)
    requires CmsisPowers(c)
    ensures IsExtended(id) <==> id >= 0x8000_0000
  {
    AndOneBit(id, c.ide);
  }

  lemma HalIdIs(id: u32, c: CmsisId)
    requires CmsisPowers(c)
    ensures IsExtended(id) <==> id >= 0x8000_0000
    ensures HalId(id) == id % (if id >= 0x8000_0000 then 0x2000_0000 else 0x800)
  {
    IdeBitIs(id, c);
    MasksAre(id, c);
  }

  /** An identifier on its way down and up again. */
  lemma IdEndToEnd(id: u32, back: u32)
    requires back == HalId(id) % (if IsExtended(id) then 0x2000_0000 else 0x800)
    ensures CmsisIdOf(back, IsExtended(id))
            == if id >= 0x8000_0000 then id % 0x2000_0000 + 0x8000_0000 else id % 0x800
  {
    var cut := if id >= 0x8000_0000 then id % 0x2000_0000 else id % 0x800;
    assert back == cut && (IsExtended(id) <==> id >= 0x8000_0000) by {
      CmsisIs();
      HalIdIs(id, CMSIS_ID);
    }
    CmsisIs();
    BackUp(cut, IsExtended(id), CMSIS_ID);
  }

  lemma BackUp(id: u32, extended: bool, c: CmsisId)
    requires CmsisPowers(c) && if extended then id < 0x2000_0000 else id < 0x800
    ensures CmsisIdOf(id, extended) == if extended then id + 0x8000_0000 else id
  {
    CmsisIdIs(id, extended, c);
  }

  lemma CmsisIdIs(id: u32, extended: bool, c: CmsisId)
    requires CmsisPowers(c)
    ensures CmsisIdOf(id, extended) == if extended then id % 0x2000_0000 + 0x8000_0000 else id % 0x800
  {
    MasksAre(id, c);
    if extended {
      OrAdds(id % 0x2000_0000, IDE_MASK, c.ide);
    }
  }

  /** The separate length-code chain of MessageRead. */
  function ReadDlc(len: nat): nat {
    if len <= 8 then len
    else if len <= 12 then 9
    else if len <= 16 then 10
    else if len <= 20 then 11
    else if len <= 24 then 12
    else if len <= 32 then 13
    else if len <= 48 then 14
    else 15
  }

  /** The information MessageRead reports for a frame. */
  function ReadInfo(f: Frame): MsgInfo {
    CmsisIs();
    CmsisIdIs(f.id, f.extended, CMSIS_ID);
    MsgInfo(CmsisIdOf(f.id, f.extended), false, f.fd, f.brs, false, ReadDlc(f.len))
  }

  /** What MessageRead reports of any frame the receive path can hand it. */
  lemma ReadInfoIs(f: Frame)
    requires f.len <= PAYLOAD_BYTES
    ensures var out := ReadInfo(f);
            && out.id == (if f.extended then f.id % 0x2000_0000 + 0x8000_0000 else f.id % 0x800)
            && out.edl == f.fd && out.brs == f.brs && !out.rtr && !out.esi
            && out.dlc == LenToDlc(f.len)
  {
    CmsisIs();
    CmsisIdIs(f.id, f.extended, CMSIS_ID);
  }

  /** The frame MessageSend hands down: flags and masked identifier from the information, the
      bytes in front of whatever the local buffer held. */
  function SendFrame(info: MsgInfo, data: seq<u8>, stale: Payload): Frame
    requires |data| <= PAYLOAD_BYTES
  {
    CmsisIs();
    HalIdIs(info.id, CMSIS_ID);
    Frame(HalId(info.id), IsExtended(info.id), info.edl, info.brs, |data|, data + stale[|data|..])
  }

  /** End to end: an accepted message whose object arrives unchanged is read back with the same
      identifier, format and rate flags and length code, its bytes first and zeros after. */
  lemma EndToEnd(info: MsgInfo, data: seq<u8>, stale: Payload, words: seq<u32>, buffer: Payload)
    requires |data| <= PAYLOAD_BYTES && !info.rtr && (info.edl || |data| <= 8)
    requires |words| == OBJECT_WORDS && Encode(SendFrame(info, data, stale)) <= words
    ensures var f := Decode(words, buffer);
            var out := ReadInfo(f);
            && out.id == (if info.id >= 0x8000_0000 then info.id % 0x2000_0000 + 0x8000_0000 else info.id % 0x800)
            && out.edl == info.edl && out.brs == (info.edl && info.brs) && !out.rtr && !out.esi
            && out.dlc == LenToDlc(|data|)
            && f.len == DlcToLen(out.dlc) && |data| <= f.len
            && f.data[..|data|] == data
            && forall i | |data| <= i < f.len :: f.data[i] == 0
  {
    var sent := SendFrame(info, data, stale);
    var f := Decode(words, buffer);
    DecodeEncode(sent, words, buffer);
    IdEndToEnd(info.id, f.id);
    DlcInverse(LenToDlc(|data|));
    assert ReadDlc(f.len) == LenToDlc(f.len);
    forall i | 0 <= i < |data| ensures f.data[..|data|][i] == data[i] {
      assert f.data[i] == ByteAt(sent.data, sent.len, i) == sent.data[i];
    }
  }
}
