/** Message objects in the word-access RAM region: eight objects of 18 words, four of the
    transmit queue and then four of the receive FIFO. */
module MessageRam {
  import opened Bits
  import opened FrameCodec

  const OBJECTS := 8
  const RAM_WORDS := OBJECTS * OBJECT_WORDS

  /** The words of object number slot. */
  function ObjectAt(ram: seq<u32>, slot: nat): (words: seq<u32>)
    requires |ram| == RAM_WORDS && slot < OBJECTS
    ensures |words| == OBJECT_WORDS
    ensures forall k | 0 <= k < 18 :: words[k] == ram[18 * slot + k]
  {
    ram[slot * OBJECT_WORDS..(slot + 1) * OBJECT_WORDS]
  }

  /** One word packed as the program does it: a byte is or-ed in only if it is in the payload. */
  method PackInto(data: seq<u8>, len: nat, w: nat) returns (word: u32)
    requires len <= |data|
    ensures word == PackWord(data, len, w)
  {
    var b := 4 * w;
    HeaderIs();
    WordUnpacks(ByteAt(data, len, b), ByteAt(data, len, b + 1), ByteAt(data, len, b + 2),
                ByteAt(data, len, b + 3), BYTE_POS);
    forall k: nat {
      ShlZero(k);
    }
    var acc := 0;
    if b < len {
      acc := data[b];
    }
    if b + 1 < len {
      acc := Or(acc, Shl(data[b + 1], BYTE_POS.b1));
    }
    if b + 2 < len {
      acc := Or(acc, Shl(data[b + 2], BYTE_POS.b2));
    }
    if b + 3 < len {
      acc := Or(acc, Shl(data[b + 3], BYTE_POS.b3));
    }
    return acc;
  }

  lemma {:induction false} ShlZero(k: nat)
    ensures Shl(0, k) == 0 && forall a: nat :: Or(a, 0) == a
  {
    if k > 0 {
      ShlZero(k - 1);
    }
  }

  /** The part of transmit that writes message RAM: exactly the encoded words at the front of the
      object, and nothing else in the region. */
  method WriteObject(ram: array<u32>, slot: nat, f: Frame)
    requires ram.Length == RAM_WORDS && slot < OBJECTS && f.len <= PAYLOAD_BYTES
    modifies ram
    ensures ram[..] == old(ram[..slot * OBJECT_WORDS]) + Encode(f) + old(ram[slot * OBJECT_WORDS + |Encode(f)|..])
    ensures Encode(f) <= ObjectAt(ram[..], slot)
    ensures forall other | 0 <= other < OBJECTS && other != slot ::
              ObjectAt(ram[..], other) == old(ObjectAt(ram[..], other))
  {
    var base := slot * OBJECT_WORDS;
    ghost var before := ram[..];
    ram[base] := IdWord(f);
    ram[base + 1] := CtrlWord(f);
    WritePayload(ram, base, f);
    SpliceIs(before, ram[..], base, Encode(f));
    OnlyThisObject(before, ram[..], slot, Encode(f));
  }

  /** The pack loop, behind the two header words. */
  method WritePayload(ram: array<u32>, base: nat, f: Frame)
    requires base + OBJECT_WORDS <= ram.Length && f.len <= PAYLOAD_BYTES
    modifies ram
    ensures var end := base + 2 + PayloadWords(WireLen(f.len));
            && (forall k | base + 2 <= k < end :: ram[k] == PackWord(f.data, f.len, k - base - 2))
            && (forall k | 0 <= k < ram.Length && !(base + 2 <= k < end) :: ram[k] == old(ram[k]))
  {
    var dlc := LenToDlc(f.len);
    var actualLen := DlcToLen(dlc);
    var nwords := (actualLen + 3) / 4;
    var w := 0;
    while w < nwords
      invariant w <= nwords
      invariant forall k | base + 2 <= k < base + 2 + w :: ram[k] == PackWord(f.data, f.len, k - base - 2)
      invariant forall k | 0 <= k < ram.Length && !(base + 2 <= k < base + 2 + w) :: ram[k] == old(ram[k])
    {
      var word := PackInto(f.data, f.len, w);
      ram[base + 2 + w] := word;
      w := w + 1;
    }
  }

  lemma SpliceIs(before: seq<u32>, after: seq<u32>, base: nat, words: seq<u32>)
    requires |before| == |after| && base + |words| <= |before|
    requires forall k | base <= k < base + |words| :: after[k] == words[k - base]
    requires forall k | 0 <= k < |before| && !(base <= k < base + |words|) :: after[k] == before[k]
    ensures after == before[..base] + words + before[base + |words|..]
  {
    var splice := before[..base] + words + before[base + |words|..];
    forall k | 0 <= k < |after| ensures after[k] == splice[k] {}
  }

  lemma OnlyThisObject(before: seq<u32>, after: seq<u32>, slot: nat, words: seq<u32>)
    requires |before| == RAM_WORDS && slot < OBJECTS && |words| <= OBJECT_WORDS
    requires after == before[..slot * OBJECT_WORDS] + words + before[slot * OBJECT_WORDS + |words|..]
    ensures words <= ObjectAt(after, slot)
    ensures forall other | 0 <= other < OBJECTS && other != slot :: ObjectAt(after, other) == ObjectAt(before, other)
  {
    var base := slot * OBJECT_WORDS;
    var mine := ObjectAt(after, slot);
    assert |mine| == OBJECT_WORDS;
    forall k | 0 <= k < |words| ensures mine[k] == words[k] {
      assert mine[k] == after[base + k];
    }
    forall other | 0 <= other < OBJECTS && other != slot
      ensures ObjectAt(after, other) == ObjectAt(before, other)
    {
      assert other < slot ==> (other + 1) * OBJECT_WORDS <= base;
      assert slot < other ==> base + OBJECT_WORDS <= other * OBJECT_WORDS;
    }
  }

  /** The caller's frame structure, filled in place. */
  class FrameBuffer {
    var id: u32
    var extended: bool
    var fd: bool
    var brs: bool
    var len: u8
    const data: array<u8>

    ghost predicate Valid() {
      data.Length == PAYLOAD_BYTES
    }

    function Value(): Frame
      reads this, data
      requires Valid()
    {
      Frame(id, extended, fd, brs, len, data[..])
    }

    constructor ()
      ensures Valid() && fresh(data)
    {
      id, extended, fd, brs, len := 0, false, false, false, 0;
      data := new u8[PAYLOAD_BYTES];
    }

    /** The part of receive that reads message RAM: the decoded object, over whatever the
        structure held before. */
    method ReadObject(words: seq<u32>)
      requires Valid() && |words| == OBJECT_WORDS
      modifies this, data
      ensures Value() == Decode(words, old(data[..]))
    {
      ghost var stale := data[..];
      ghost var want := Decode(words, stale);
      extended := HasFlag(words[1], HEADER.ide);
      HeaderIs();
      ParsedIdIs(words[0], extended, HEADER);
      id := ParseIdWord(words[0], extended, HEADER);
      fd := HasFlag(words[1], HEADER.fdf);
      brs := HasFlag(words[1], HEADER.brs);
      len := DlcToLen(And(words[1], DLC_MASK));
      // no length code exceeds the payload size, so the clamp that follows never acts
      var nwords := (len + 3) / 4;
      var w := 0;
      while w < nwords
        invariant w <= nwords && len == want.len
        invariant id == want.id && extended == want.extended && fd == want.fd && brs == want.brs
        invariant forall i | 0 <= i < PAYLOAD_BYTES :: data[i] == if i < 4 * w then want.data[i] else stale[i]
      {
        Unpack(words, 4 * w);
        w := w + 1;
      }
      assert data[..] == want.data;
    }

    /** Up to four bytes of one payload word. */
    method Unpack(words: seq<u32>, b: nat)
      requires Valid() && |words| == OBJECT_WORDS && len <= PAYLOAD_BYTES && b % 4 == 0 && b < len
      modifies data
      ensures forall i | 0 <= i < PAYLOAD_BYTES ::
                data[i] == if b <= i < b + 4 && i < len then ByteOf(words[2 + i / 4], Lane(BYTE_POS, i % 4))
                           else old(data[i])
    {
      var word := words[2 + b / 4];
      data[b] := ByteOf(word, Lane(BYTE_POS, 0));
      if b + 1 < len {
        data[b + 1] := ByteOf(word, Lane(BYTE_POS, 1));
      }
      if b + 2 < len {
        data[b + 2] := ByteOf(word, Lane(BYTE_POS, 2));
      }
      if b + 3 < len {
        data[b + 3] := ByteOf(word, Lane(BYTE_POS, 3));
      }
    }
  }
}
