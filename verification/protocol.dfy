/**
 The wire format of the Shuttle VFD (a 20x1 character vacuum-fluorescent
 display with 15 icons and a 12-level volume bar).

 Every command is one 8-byte packet: the first byte holds a command nibble
 (0x1 clear, 0x7 icons, 0x9 text) and a length nibble (0..7), the other seven
 bytes are data. This module holds the packets as values, the decoding that
 each one is designed for, and the updates the driver applies to its icon mask.
 */
module VfdProtocol {

  /** One byte of a packet or of the screen. */
  newtype byte = x: int | 0 <= x < 256

  /** Bytes per packet, and data bytes per packet. */
  const PacketSize: nat := 8
  const DataSize: nat := 7
  /** Characters on the display. */
  const Width: nat := 20
  /** Binary icons; icon i is bit i of the icon mask. */
  const IconCount: nat := 15
  /** Highest volume level; the level lives in the mask from bit 15 up. */
  const MaxLevel: bv64 := 12
  const VolumeLevels: nat := MaxLevel as nat
  /** The icon part of the mask (bits 0..14). */
  const BaseMask: bv64 := 0x7FFF
  /** Newline byte. */
  const NL: byte := 0x0A

  function Zeros(n: nat): (z: seq<byte>)
    ensures |z| == n && forall k :: 0 <= k < n ==> z[k] == 0
  {
    seq(n, _ => 0)
  }

  function Min(a: nat, b: nat): nat
  {
    if a < b then a else b
  }

  // ---------------------------------------------------------------------------
  // Packet header

  /** The command nibble of a packet. */
  function Command(p: seq<byte>): nat
    requires |p| == PacketSize
  {
    p[0] as nat / 16
  }

  /** The length nibble of a packet: how many of its data bytes count. */
  function DataLength(p: seq<byte>): nat
    requires |p| == PacketSize
  {
    p[0] as nat % 16
  }

  /** A packet whose length nibble fits its seven data bytes. */
  predicate WellFormed(p: seq<byte>)
  {
    |p| == PacketSize && DataLength(p) <= DataSize
  }

  /** The data bytes a packet carries, as its length nibble says. */
  function Payload(p: seq<byte>): (d: seq<byte>)
    requires WellFormed(p)
    ensures |d| == DataLength(p)
  {
    p[1..1 + DataLength(p)]
  }

  predicate AllWellFormed(ps: seq<seq<byte>>)
  {
    forall k :: 0 <= k < |ps| ==> WellFormed(ps[k])
  }

  /** The data bytes of a sequence of packets, in the order they are sent. */
  function Payloads(ps: seq<seq<byte>>): seq<byte>
    requires AllWellFormed(ps)
  {
    if ps == [] then [] else Payloads(ps[..|ps| - 1]) + Payload(ps[|ps| - 1])
  }

  // ---------------------------------------------------------------------------
  // Clear packet (command 0x1, length 1)

  /** Data byte 1 clears text and icons; 2 only resets the text cursor. */
  function ClearPacket(eraseAll: bool): (p: seq<byte>)
    ensures WellFormed(p) && Command(p) == 0x1 && DataLength(p) == 1
    ensures Payload(p) == [if eraseAll then 1 else 2]
    ensures p[2..] == Zeros(6)
  {
    [0x11, if eraseAll then 1 else 2, 0, 0, 0, 0, 0, 0]
  }

  // ---------------------------------------------------------------------------
  // Icons packet (command 0x7, length 4)

  /** The mask a receiver rebuilds from the four 5-bit groups of an icons packet. */
  function DecodeIcons(p: seq<byte>): bv64
    requires |p| == PacketSize
  {
    ((p[1] as bv64) << 15) | ((p[2] as bv64) << 10) | ((p[3] as bv64) << 5) | (p[4] as bv64)
  }

  /** The low five bits of a mask value, stored as a byte. */
  function FiveBits(x: bv64): byte
  {
    ((x & 0x1F) as bv5) as byte
  }

  /** A five-bit group is below 32 and widens back to the bits it was cut from. */
  lemma FiveBitsValue(x: bv64)
    ensures FiveBits(x) < 32 && FiveBits(x) as bv64 == x & 0x1F
  {
  }

  /**
   The icons packet for a mask: bits 15..19, 10..14, 5..9 and 0..4 go, in that
   order, into data bytes 1..4, five bits each. Bits from 20 up are not sent.
   */
  function IconsPacket(mask: bv64): seq<byte>
  {
    [0x74, FiveBits(mask >> 15), FiveBits(mask >> 10), FiveBits(mask >> 5), FiveBits(mask), 0, 0, 0]
  }

  /**
   An icons packet is well formed, has command 7 and length 4, carries four
   groups below 32 and is zero after them.
   */
  lemma IconsPacketFields(mask: bv64)
    ensures var p := IconsPacket(mask);
      WellFormed(p) && Command(p) == 0x7 && DataLength(p) == 4 &&
      (forall k :: 1 <= k <= 4 ==> p[k] < 32) && p[5..] == Zeros(3)
  {
    FiveBitsValue(mask >> 15);
    FiveBitsValue(mask >> 10);
    FiveBitsValue(mask >> 5);
    FiveBitsValue(mask);
  }

  /** The receiver rebuilds the low 20 bits of the mask from an icons packet. */
  lemma IconsRoundTrip(mask: bv64)
    ensures DecodeIcons(IconsPacket(mask)) == mask & 0xF_FFFF
  {
    IconsPacketFields(mask);
    FiveBitsValue(mask >> 15);
    FiveBitsValue(mask >> 10);
    FiveBitsValue(mask >> 5);
    FiveBitsValue(mask);
    GroupsAlgebra(mask);
  }

  lemma GroupsAlgebra(m: bv64)
    ensures (((m >> 15) & 0x1F) << 15) | (((m >> 10) & 0x1F) << 10) | (((m >> 5) & 0x1F) << 5) | (m & 0x1F)
      == m & 0xF_FFFF
  {
  }

  /** The mask with the given bits set. */
  function SetBits(mask: bv64, bits: bv64): bv64
  {
    mask | bits
  }

  /** The mask with the given bits cleared. */
  function ClearBits(mask: bv64, bits: bv64): bv64
  {
    mask & !bits
  }

  /** The mask with only the given bits kept. */
  function KeepBits(mask: bv64, bits: bv64): bv64
  {
    mask & bits
  }

  /** The LED mask of icon i: bit i alone. */
  function IconBit(i: nat): bv64
    requires i < IconCount
  {
    if i == 0 then 1 else IconBit(i - 1) << 1
  }

  /** The LED mask of icon i is 1 << i, as probe computes it. */
  lemma {:induction false} IconBitIsShift(i: nat)
    requires i < IconCount
    ensures IconBit(i) == (1 as bv64) << i
  {
    if i > 0 {
      IconBitIsShift(i - 1);
      assert ((1 as bv64) << (i - 1)) << 1 == (1 as bv64) << i;
    }
  }

  /** The volume field of the mask for a level. */
  function VolumeBits(level: bv64): bv64
    requires level <= MaxLevel
  {
    level << 15
  }

  /** A brightness up to the volume level count, widened to a mask word: at most 12, zero only for zero. */
  function Level(value: nat): (level: bv64)
    requires value <= VolumeLevels
    ensures level <= MaxLevel && (level == 0 <==> value == 0)
  {
    value as bv64
  }

  /**
   The mask after an LED whose mask is led is switched on (its bits OR-ed in)
   or off (its bits cleared).
   */
  function WithLed(mask: bv64, led: bv64, on: bool): bv64
  {
    if on then SetBits(mask, led) else ClearBits(mask, led)
  }

  /** Switching an LED sets or clears exactly its bits and keeps every other bit. */
  lemma WithLedBits(mask: bv64, led: bv64, on: bool)
    ensures WithLed(mask, led, on) & led == (if on then led else 0)
    ensures WithLed(mask, led, on) & !led == mask & !led
  {
    if on {
      SetAlgebra(mask, led);
    } else {
      ClearAlgebra(mask, led);
    }
  }

  lemma SetAlgebra(mask: bv64, led: bv64)
    ensures (mask | led) & led == led && (mask | led) & !led == mask & !led
    ensures (mask | led) | led == mask | led
  {
  }

  lemma ClearAlgebra(mask: bv64, led: bv64)
    ensures (mask & !led) & led == 0 && (mask & !led) & !led == mask & !led
  {
  }

  /** The mask after the volume is set to a level: icons kept, volume field replaced. */
  function WithVolume(mask: bv64, level: bv64): bv64
    requires level <= MaxLevel
  {
    var icons := KeepBits(mask, BaseMask);
    if level != 0 then SetBits(icons, VolumeBits(level)) else icons
  }

  /** Setting the volume keeps bits 0..14 and leaves exactly the level from bit 15 up. */
  lemma WithVolumeBits(mask: bv64, level: bv64)
    requires level <= MaxLevel
    ensures WithVolume(mask, level) & BaseMask == mask & BaseMask
    ensures WithVolume(mask, level) >> 15 == level
  {
    if level != 0 {
      VolumeAlgebra(mask, level);
    } else {
      assert (mask & BaseMask) >> 15 == 0;
    }
  }

  lemma VolumeAlgebra(mask: bv64, level: bv64)
    requires level <= MaxLevel
    ensures ((mask & BaseMask) | (level << 15)) & BaseMask == mask & BaseMask
    ensures ((mask & BaseMask) | (level << 15)) >> 15 == level
  {
  }

  /** The level in the mask word is the brightness itself. */
  lemma LevelIsValue(value: nat)
    requires value <= VolumeLevels
    ensures Level(value) as int == value
  {
  }

  /** Switching an icon LED never touches the volume field from bit 15 up. */
  lemma IconKeepsVolume(mask: bv64, i: nat, on: bool)
    requires i < IconCount
    ensures WithLed(mask, IconBit(i), on) >> 15 == mask >> 15
  {
    IconBitIsShift(i);
    WithLedBits(mask, IconBit(i), on);
  }

  /** Every icon bit lies within the 20 bits an icons packet carries. */
  lemma IconBitInPacket(i: nat)
    requires i < IconCount
    ensures IconBit(i) & 0xF_FFFF == IconBit(i)
  {
    IconBitIsShift(i);
  }

  /** Bits within the low 20 reach the receiver as they are in the mask. */
  lemma DecodedBits(w: bv64, bits: bv64)
    requires bits & 0xF_FFFF == bits
    ensures DecodeIcons(IconsPacket(w)) & bits == w & bits
  {
    IconsRoundTrip(w);
    MaskedBits(w, bits);
  }

  lemma MaskedBits(w: bv64, bits: bv64)
    requires bits & 0xF_FFFF == bits
    ensures (w & 0xF_FFFF) & bits == w & bits
  {
  }

  /**
   After an LED whose bits lie within the low 20 is switched on or off, the
   receiver decoding the icons packet sees those bits all set or all clear.
   */
  lemma LedReachesReceiver(mask: bv64, led: bv64, on: bool)
    requires led & 0xF_FFFF == led
    ensures DecodeIcons(IconsPacket(WithLed(mask, led, on))) & led == (if on then led else 0)
  {
    DecodedBits(WithLed(mask, led, on), led);
    WithLedBits(mask, led, on);
  }

  /**
   With a volume level set, the icons packet carries the whole new mask: the
   receiver decodes the icons and the level exactly.
   */
  lemma VolumeInIconsPacket(mask: bv64, level: bv64)
    requires level <= MaxLevel
    ensures DecodeIcons(IconsPacket(WithVolume(mask, level))) == WithVolume(mask, level)
  {
    VolumeFitsPacket(mask, level);
    DecodesWhole(WithVolume(mask, level));
  }

  lemma DecodesWhole(w: bv64)
    requires w & 0xF_FFFF == w
    ensures DecodeIcons(IconsPacket(w)) == w
  {
    IconsRoundTrip(w);
  }

  /** A mask with a volume level set has nothing above bit 19. */
  lemma VolumeFitsPacket(mask: bv64, level: bv64)
    requires level <= MaxLevel
    ensures WithVolume(mask, level) & 0xF_FFFF == WithVolume(mask, level)
  {
    if level != 0 {
      VolumeFieldFits(mask, level);
    } else {
      IconsFit(mask);
    }
  }

  lemma VolumeFieldFits(mask: bv64, level: bv64)
    requires level <= MaxLevel
    ensures ((mask & BaseMask) | (level << 15)) & 0xF_FFFF == (mask & BaseMask) | (level << 15)
  {
  }

  lemma IconsFit(mask: bv64)
    ensures (mask & BaseMask) & 0xF_FFFF == mask & BaseMask
  {
  }

  /** Bytes 2..4 of the icons packet after a volume change are those of the icons alone. */
  lemma VolumeKeepsIconBytes(mask: bv64, level: bv64)
    requires level <= MaxLevel
    ensures var p, q := IconsPacket(WithVolume(mask, level)), IconsPacket(mask & BaseMask);
      p[2] == q[2] && p[3] == q[3] && p[4] == q[4]
  {
    WithVolumeBits(mask, level);
    AndIdempotent(mask, BaseMask);
    LowBytesAgree(WithVolume(mask, level), mask & BaseMask);
  }

  /** After a volume change, the first data byte of the icons packet is the brightness. */
  lemma VolumeByte(mask: bv64, value: nat)
    requires value <= VolumeLevels
    ensures IconsPacket(WithVolume(mask, Level(value)))[1] as int == value
  {
  }

  lemma LowBytesAgree(a: bv64, b: bv64)
    requires a & BaseMask == b & BaseMask
    ensures IconsPacket(a)[2] == IconsPacket(b)[2]
    ensures IconsPacket(a)[3] == IconsPacket(b)[3]
    ensures IconsPacket(a)[4] == IconsPacket(b)[4]
  {
    LowGroupsAgree(a, b);
    assert FiveBits(a >> 10) == FiveBits(b >> 10);
    assert FiveBits(a >> 5) == FiveBits(b >> 5);
    assert FiveBits(a) == FiveBits(b);
  }

  lemma AndIdempotent(a: bv64, b: bv64)
    ensures (a & b) & b == a & b
  {
  }

  /** Masks that agree on bits 0..14 agree on the three low five-bit groups. */
  lemma LowGroupsAgree(a: bv64, b: bv64)
    requires a & BaseMask == b & BaseMask
    ensures (a >> 10) & 0x1F == (b >> 10) & 0x1F
    ensures (a >> 5) & 0x1F == (b >> 5) & 0x1F
    ensures a & 0x1F == b & 0x1F
  {
    assert (a >> 10) & 0x1F == ((a & BaseMask) >> 10) & 0x1F;
    assert (b >> 10) & 0x1F == ((b & BaseMask) >> 10) & 0x1F;
    assert (a >> 5) & 0x1F == ((a & BaseMask) >> 5) & 0x1F;
    assert (b >> 5) & 0x1F == ((b & BaseMask) >> 5) & 0x1F;
    assert a & 0x1F == (a & BaseMask) & 0x1F;
    assert b & 0x1F == (b & BaseMask) & 0x1F;
  }

  /** Switching an LED to the state it already has leaves the mask as it is. */
  lemma WithLedIdempotent(mask: bv64, led: bv64, on: bool)
    ensures WithLed(WithLed(mask, led, on), led, on) == WithLed(mask, led, on)
  {
    if on {
      SetAlgebra(mask, led);
    } else {
      ClearAlgebra(mask, led);
    }
  }

  // ---------------------------------------------------------------------------
  // Text packets (command 0x9, length 0..7)

  /** A text packet carrying a chunk of up to seven characters, zero-padded. */
  function TextPacket(chunk: seq<byte>): seq<byte>
    requires |chunk| <= DataSize
  {
    [0x90 + |chunk| as byte] + chunk + Zeros(DataSize - |chunk|)
  }

  /**
   A text packet is well formed, has command 9 and length |chunk|, carries
   exactly the chunk, and is zero after it.
   */
  lemma TextPacketFields(chunk: seq<byte>)
    requires |chunk| <= DataSize
    ensures var p := TextPacket(chunk);
      WellFormed(p) && Command(p) == 0x9 && DataLength(p) == |chunk| &&
      Payload(p) == chunk && p[1 + |chunk|..] == Zeros(DataSize - |chunk|)
  {
    var p := TextPacket(chunk);
    assert p[1..1 + |chunk|] == chunk;
  }

  /** A buffer with the header, data and zero padding of a text packet is that packet. */
  lemma IsTextPacket(p: seq<byte>, chunk: seq<byte>)
    requires |chunk| <= DataSize && |p| == PacketSize
    requires p[0] == 0x90 + |chunk| as byte
    requires p[1..1 + |chunk|] == chunk
    requires forall k :: 1 + |chunk| <= k < PacketSize ==> p[k] == 0
    ensures p == TextPacket(chunk)
  {
    var q := TextPacket(chunk);
    assert forall k :: 1 <= k < 1 + |chunk| ==> p[k] == chunk[k - 1] == q[k];
  }

  /** The first n full seven-character packets of a text. */
  function FullChunks(t: seq<byte>, n: nat): (ps: seq<seq<byte>>)
    requires DataSize * n <= |t|
    ensures |ps| == n
  {
    if n == 0 then []
    else FullChunks(t, n - 1) + [TextPacket(t[DataSize * (n - 1)..DataSize * n])]
  }

  /** The full chunks carry the text up to their end, seven characters each. */
  lemma {:induction false} FullChunksPayloads(t: seq<byte>, n: nat)
    requires DataSize * n <= |t|
    ensures AllWellFormed(FullChunks(t, n))
    ensures forall k :: 0 <= k < n ==> FullChunks(t, n)[k][0] == 0x97
    ensures Payloads(FullChunks(t, n)) == t[..DataSize * n]
  {
    if n > 0 {
      FullChunksPayloads(t, n - 1);
      var init := FullChunks(t, n - 1);
      var chunk := t[DataSize * (n - 1)..DataSize * n];
      TextPacketFields(chunk);
      var ps := init + [TextPacket(chunk)];
      assert ps[..n - 1] == init;
      assert t[..DataSize * n] == t[..DataSize * (n - 1)] + chunk;
    }
  }

  /**
   The packets that send a text: one full packet per seven characters, then a
   shorter one for the remainder when there is one.
   */
  function TextPackets(t: seq<byte>): seq<seq<byte>>
  {
    var n := |t| / DataSize;
    FullChunks(t, n) + (if |t| % DataSize != 0 then [TextPacket(t[DataSize * n..])] else [])
  }

  /**
   A text goes out in |t| / 7 full packets, plus one more when 7 does not
   divide |t|; all are well formed and, joined, their payloads are the text.
   */
  lemma TextPacketsDecode(t: seq<byte>)
    ensures var ps := TextPackets(t);
      && |ps| == |t| / DataSize + (if |t| % DataSize != 0 then 1 else 0)
      && AllWellFormed(ps) && Payloads(ps) == t
  {
    TextPacketsParts(t);
    if |t| % DataSize == 0 {
      DecodeFullOnly(t);
    } else {
      DecodeWithRest(t);
    }
  }

  lemma DecodeFullOnly(t: seq<byte>)
    requires |t| % DataSize == 0
    ensures AllWellFormed(FullChunks(t, |t| / DataSize))
    ensures Payloads(FullChunks(t, |t| / DataSize)) == t
  {
    FullChunksPayloads(t, |t| / DataSize);
    assert t[..DataSize * (|t| / DataSize)] == t;
  }

  lemma DecodeWithRest(t: seq<byte>)
    requires |t| % DataSize != 0
    ensures var ps := FullChunks(t, |t| / DataSize) + [TextPacket(t[DataSize * (|t| / DataSize)..])];
      AllWellFormed(ps) && Payloads(ps) == t
  {
    var n := |t| / DataSize;
    var full := FullChunks(t, n);
    var rest := t[DataSize * n..];
    FullChunksPayloads(t, n);
    TextPacketFields(rest);
    AppendPacket(full, TextPacket(rest));
    assert t[..DataSize * n] + rest == t;
  }

  /**
   The full packets of a text have header 0x97; the remainder packet, present
   only when 7 does not divide |t|, has header 0x90 + |t| % 7 and is zero after
   its data.
   */
  lemma TextPacketsHeaders(t: seq<byte>)
    ensures var ps := TextPackets(t);
      && |ps| == |t| / DataSize + (if |t| % DataSize != 0 then 1 else 0) && AllWellFormed(ps)
      && (forall k :: 0 <= k < |t| / DataSize ==> ps[k][0] == 0x97)
      && (|t| % DataSize != 0 ==>
            ps[|ps| - 1][0] == 0x90 + (|t| % DataSize) as byte &&
            ps[|ps| - 1][1 + |t| % DataSize..] == Zeros(DataSize - |t| % DataSize))
  {
    var n := |t| / DataSize;
    TextPacketsDecode(t);
    FullChunksPayloads(t, n);
    if |t| % DataSize != 0 {
      TextPacketFields(t[DataSize * n..]);
    }
  }

  /** Appending a well-formed packet appends its payload. */
  lemma AppendPacket(ps: seq<seq<byte>>, p: seq<byte>)
    requires AllWellFormed(ps) && WellFormed(p)
    ensures AllWellFormed(ps + [p]) && Payloads(ps + [p]) == Payloads(ps) + Payload(p)
  {
    assert (ps + [p])[..|ps|] == ps;
  }

  /** One more full chunk appends one more full text packet. */
  lemma FullChunksStep(t: seq<byte>, n: nat)
    requires DataSize * (n + 1) <= |t|
    ensures FullChunks(t, n + 1) == FullChunks(t, n) + [TextPacket(t[DataSize * n..DataSize * (n + 1)])]
  {
  }

  /** The text packets are the full chunks, then the remainder packet if any. */
  lemma TextPacketsParts(t: seq<byte>)
    ensures DataSize * (|t| / DataSize) + |t| % DataSize == |t|
    ensures |t| % DataSize == 0 ==> TextPackets(t) == FullChunks(t, |t| / DataSize)
    ensures |t| % DataSize != 0 ==>
      TextPackets(t) == FullChunks(t, |t| / DataSize) + [TextPacket(t[DataSize * (|t| / DataSize)..])]
  {
  }

  /** A full screen goes out as three packets of 7, 7 and 6 characters. */
  lemma FullScreenPackets(s: seq<byte>)
    requires |s| == Width
    ensures TextPackets(s) == [TextPacket(s[..7]), TextPacket(s[7..14]), TextPacket(s[14..])]
  {
    var ps := TextPackets(s);
    assert FullChunks(s, 2) == FullChunks(s, 1) + [TextPacket(s[7..14])];
    assert FullChunks(s, 1) == [TextPacket(s[..7])];
    assert ps == FullChunks(s, 2) + [TextPacket(s[14..])];
  }

  // ---------------------------------------------------------------------------
  // Screen contents as written and as read back

  /** The 20-byte screen after writing buf: its first 20 bytes, zero-padded. */
  function PadToWidth(buf: seq<byte>): (s: seq<byte>)
    ensures |s| == Width
    ensures s[..Min(|buf|, Width)] == buf[..Min(|buf|, Width)]
    ensures forall k :: Min(|buf|, Width) <= k < Width ==> s[k] == 0
  {
    var l := Min(|buf|, Width);
    buf[..l] + Zeros(Width - l)
  }

  /** Bytes dropped from the end of the screen when it is read. */
  predicate Trimmable(b: byte)
  {
    b == 0 || b == NL
  }

  /** The length of s without its trailing NUL and newline bytes. */
  function TrimmedLength(s: seq<byte>): (n: nat)
    ensures n <= |s|
    ensures n > 0 ==> !Trimmable(s[n - 1])
    ensures forall k :: n <= k < |s| ==> Trimmable(s[k])
  {
    if |s| == 0 then 0
    else if Trimmable(s[|s| - 1]) then TrimmedLength(s[..|s| - 1])
    else |s|
  }

  /** What reading the screen returns: the trimmed text and one newline. */
  function ReadResult(s: seq<byte>): (r: seq<byte>)
  {
    s[..TrimmedLength(s)] + [NL]
  }

  /** The trimmed length is the only cut with a kept last byte and a trimmable tail. */
  lemma {:induction false} TrimmedLengthUnique(s: seq<byte>, n: nat)
    requires n <= |s|
    requires n > 0 ==> !Trimmable(s[n - 1])
    requires forall k :: n <= k < |s| ==> Trimmable(s[k])
    ensures TrimmedLength(s) == n
  {
    if n < |s| {
      assert Trimmable(s[|s| - 1]);
      TrimmedLengthUnique(s[..|s| - 1], n);
    }
  }

  /** Trailing zero bytes do not change the trimmed length. */
  lemma {:induction false} TrimmedLengthPadded(s: seq<byte>, k: nat)
    ensures TrimmedLength(s + Zeros(k)) == TrimmedLength(s)
  {
    if k > 0 {
      var t := s + Zeros(k);
      assert t[..|t| - 1] == s + Zeros(k - 1);
      TrimmedLengthPadded(s, k - 1);
    } else {
      assert s + Zeros(0) == s;
    }
  }

  /**
   Reading back what was written returns the written text (up to 20 bytes)
   without its trailing NUL and newline bytes, followed by one newline.
   */
  lemma ReadAfterWrite(buf: seq<byte>)
    ensures var t := buf[..Min(|buf|, Width)];
      ReadResult(PadToWidth(buf)) == t[..TrimmedLength(t)] + [NL]
  {
    var l := Min(|buf|, Width);
    var t := buf[..l];
    assert PadToWidth(buf) == t + Zeros(Width - l);
    TrimmedLengthPadded(t, Width - l);
  }

  /** The bytes of an ASCII string. */
  function Ascii(s: string): (b: seq<byte>)
    requires forall k :: 0 <= k < |s| ==> s[k] as int < 256
    ensures |b| == |s| && forall k :: 0 <= k < |s| ==> b[k] as int == s[k] as int
  {
    seq(|s|, k requires 0 <= k < |s| => s[k] as int as byte)
  }

  /** Writing "test 123" and reading the screen back gives "test 123\n". */
  lemma TestTextRoundTrip()
    ensures ReadResult(PadToWidth(Ascii("test 123"))) == Ascii("test 123\n")
  {
    var t := Ascii("test 123");
    ReadAfterWrite(t);
    assert t[..Min(|t|, Width)] == t;
    assert TrimmedLength(t) == 8;
    assert t + [NL] == Ascii("test 123\n");
  }
}
