/**
 One attached Shuttle VFD: the icon mask, the packet buffer and the screen
 buffer the driver keeps for it, and the operations that change them and send
 packets. Sending is a ghost log of the packets handed to the transport; the
 transport itself is not part of this model.
 */
module ShuttleVfd {
  import opened VfdProtocol

  class Vfd {
    /** The icon mask: icon i is bit i, the volume level sits from bit 15 up. */
    var iconsMask: bv64
    /** The packet buffer every send transmits. */
    const packet: array<byte>
    /** The text last written, zero-padded to the display width. */
    const screen: array<byte>
    /** The mask of each of the 15 icon LEDs. */
    const iconMasks: array<bv64>
    /** Every packet sent to the device so far, oldest first. */
    ghost var sent: seq<seq<byte>>

    ghost predicate Valid()
    {
      && packet.Length == PacketSize
      && screen.Length == Width
      && packet != screen
      && iconMasks.Length == IconCount
    }

    /** The LED of icon i carries the mask of bit i alone. */
    ghost predicate LedMasks()
      reads iconMasks
    {
      && iconMasks.Length == IconCount
      && forall i :: 0 <= i < IconCount ==> iconMasks[i] == IconBit(i)
    }

    /**
     The state probe leaves behind: zeroed buffers, no icon lit, icon LED i
     carrying mask 1 << i, and one full-clear packet sent.
     */
    constructor ()
      ensures Valid() && LedMasks() && fresh(packet) && fresh(screen) && fresh(iconMasks)
      ensures iconsMask == 0
      ensures screen[..] == Zeros(Width)
      ensures packet[..] == ClearPacket(true)
      ensures sent == [ClearPacket(true)]
    {
      var masks := new bv64[IconCount](_ => 0);
      for i := 0 to IconCount
        invariant forall j :: 0 <= j < i ==> masks[j] == IconBit(j)
      {
        masks[i] := 1 << i;
        IconBitIsShift(i);
      }
      iconMasks := masks;
      iconsMask := 0;
      packet := new byte[PacketSize](_ => 0);
      screen := new byte[Width](_ => 0);
      sent := [];
      new;
      assert screen[..] == Zeros(Width);
      ResetCursor(true);
    }

    /** Hands the packet buffer to the transport. */
    method SendPacket()
      requires Valid()
      modifies this`sent
      ensures sent == old(sent) + [packet[..]]
    {
      sent := sent + [packet[..]];
    }

    /** Sends a clear packet: a full clear, or only a text cursor reset. */
    method ResetCursor(eraseAll: bool)
      requires Valid()
      modifies this`sent, packet
      ensures packet[..] == ClearPacket(eraseAll)
      ensures sent == old(sent) + [ClearPacket(eraseAll)]
    {
      ZeroPacket();
      packet[0] := 0x11;
      if eraseAll {
        packet[1] := 1;
      } else {
        packet[1] := 2;
      }
      assert packet[..] == ClearPacket(eraseAll);
      SendPacket();
    }

    /** Sends the icons packet for the current mask. */
    method SetIcons()
      requires Valid()
      modifies this`sent, packet
      ensures packet[..] == IconsPacket(iconsMask)
      ensures sent == old(sent) + [IconsPacket(iconsMask)]
    {
      var mask := iconsMask;
      ZeroPacket();
      packet[0] := 0x74;
      packet[1] := FiveBits(mask >> 15);
      packet[2] := FiveBits(mask >> 10);
      packet[3] := FiveBits(mask >> 5);
      packet[4] := FiveBits(mask);
      assert packet[..] == IconsPacket(mask);
      SendPacket();
    }

    /**
     Sends the first len screen characters: a full text packet per seven
     characters, then one for the remainder if there is one.
     */
    method SetText(len: nat)
      requires Valid() && len <= Width
      modifies this`sent, packet
      ensures sent == old(sent) + TextPackets(screen[..len])
    {
      ghost var text := screen[..len];
      var i := 0;
      var p := 0;
      while i < len / DataSize
        invariant i <= len / DataSize && p == DataSize * i
        invariant sent == old(sent) + FullChunks(text, i)
      {
        assert p + DataSize <= len by {
          assert DataSize * (i + 1) <= DataSize * (len / DataSize);
        }
        ghost var chunk := text[p..p + DataSize];
        packet[0] := 0x97;
        CopyToPacket(p, DataSize);
        IsTextPacket(packet[..], chunk);
        p := p + DataSize;
        SendPacket();
        i := i + 1;
        FullChunksStep(text, i - 1);
      }
      var rest := len % DataSize;
      TextPacketsParts(text);
      if rest != 0 {
        ZeroPacket();
        packet[0] := 0x90 + rest as byte;
        CopyToPacket(p, rest);
        IsTextPacket(packet[..], text[p..]);
        SendPacket();
        assert screen[..len] == text;
      }
    }

    /** Zeroes the packet buffer. */
    method ZeroPacket()
      requires Valid()
      modifies packet
      ensures packet[..] == Zeros(PacketSize)
    {
      forall k | 0 <= k < PacketSize {
        packet[k] := 0;
      }
    }

    /** Copies n screen bytes from index from into the data bytes of the packet. */
    method CopyToPacket(from: nat, n: nat)
      requires Valid() && n <= DataSize && from + n <= Width
      modifies packet
      ensures packet[1..1 + n] == screen[from..from + n]
      ensures packet[0] == old(packet[0])
      ensures forall k :: 1 + n <= k < PacketSize ==> packet[k] == old(packet[k])
    {
      forall k | 0 <= k < n {
        packet[1 + k] := screen[from + k];
      }
    }

    /**
     The text write handler: the screen becomes the first 20 bytes of buf,
     zero-padded, then a cursor reset and the whole screen are sent. The
     handler reports all of buf as consumed.
     */
    method WriteText(buf: seq<byte>) returns (written: nat)
      requires Valid()
      modifies this`sent, packet, screen
      ensures written == |buf|
      ensures screen[..] == PadToWidth(buf)
      ensures sent == old(sent) + [ClearPacket(false)] + TextPackets(screen[..])
      ensures sent == old(sent) + [ClearPacket(false), TextPacket(screen[..7]), TextPacket(screen[7..14]), TextPacket(screen[14..])]
      ensures iconsMask == old(iconsMask)
    {
      if |buf| < Width {
        forall k | 0 <= k < Width {
          screen[k] := 0;
        }
      }
      var l := Min(|buf|, Width);
      forall k | 0 <= k < l {
        screen[k] := buf[k];
      }
      assert screen[..] == PadToWidth(buf);
      ResetCursor(false);
      SetText(Width);
      assert screen[..Width] == screen[..];
      FullScreenPackets(screen[..]);
      written := |buf|;
    }

    /**
     The text read handler: the screen without its trailing NUL and newline
     bytes, followed by one newline. A blank screen reads as a lone newline.
     */
    method ReadText() returns (text: seq<byte>)
      requires Valid()
      ensures 1 <= |text| <= Width + 1 && text[|text| - 1] == NL
      ensures text[..|text| - 1] == screen[..|text| - 1]
      ensures |text| > 1 ==> !Trimmable(screen[|text| - 2])
      ensures forall k :: |text| - 1 <= k < Width ==> Trimmable(screen[k])
      ensures text == ReadResult(screen[..])
    {
      var buf := new byte[Width + 1];
      forall k | 0 <= k < Width {
        buf[k] := screen[k];
      }
      var sz := Width;
      while sz > 0 && Trimmable(buf[sz - 1])
        invariant 0 <= sz <= Width
        invariant forall k :: sz <= k < Width ==> Trimmable(screen[k])
        invariant buf[..Width] == screen[..]
      {
        sz := sz - 1;
      }
      buf[sz] := NL;
      text := buf[..sz + 1];
      assert text[..sz] == screen[..sz];
      assert sz == TrimmedLength(screen[..]) by {
        TrimmedLengthUnique(screen[..], sz);
      }
    }

    /**
     The read handler exactly as the driver has it: the trimming loop has no
     lower bound, so it stays inside the buffer only when the screen holds at
     least one byte that is neither NUL nor a newline.
     */
    method ReadTextAsWritten() returns (text: seq<byte>)
      requires Valid()
      requires exists k :: 0 <= k < Width && !Trimmable(screen[k])
      ensures 2 <= |text| <= Width + 1 && text[|text| - 1] == NL
      ensures text == ReadResult(screen[..])
    {
      ghost var kept :| 0 <= kept < Width && !Trimmable(screen[kept]);
      var buf := new byte[Width + 1];
      forall k | 0 <= k < Width {
        buf[k] := screen[k];
      }
      var sz := Width;
      while Trimmable(buf[sz - 1])
        invariant kept < sz <= Width
        invariant forall k :: sz <= k < Width ==> Trimmable(screen[k])
        invariant buf[..Width] == screen[..]
        decreases sz
      {
        sz := sz - 1;
      }
      buf[sz] := NL;
      text := buf[..sz + 1];
      assert text[..sz] == screen[..sz];
      assert sz == TrimmedLength(screen[..]) by {
        TrimmedLengthUnique(screen[..], sz);
      }
    }

    /** Brightness callback of icon LED i: a non-zero value lights it, zero puts it out. */
    method SetIconLed(i: nat, value: nat)
      requires Valid() && LedMasks() && i < IconCount
      modifies this`iconsMask, this`sent, packet
      ensures iconsMask == WithLed(old(iconsMask), IconBit(i), value != 0)
      ensures sent == old(sent) + [IconsPacket(iconsMask)]
    {
      if value != 0 {
        iconsMask := SetBits(iconsMask, iconMasks[i]);
      } else {
        iconsMask := ClearBits(iconsMask, iconMasks[i]);
      }
      SetIcons();
    }

    /**
     Brightness callback of the volume LED: the level replaces bits 15 and up.
     The LED class core caps the brightness at max_brightness (12) before it
     calls back, hence the bound on value.
     */
    method SetVolume(value: nat)
      requires Valid() && value <= VolumeLevels
      modifies this`iconsMask, this`sent, packet
      ensures iconsMask == WithVolume(old(iconsMask), Level(value))
      ensures sent == old(sent) + [IconsPacket(iconsMask)]
    {
      var level := Level(value);
      iconsMask := KeepBits(iconsMask, BaseMask);
      if level != 0 {
        iconsMask := SetBits(iconsMask, VolumeBits(level));
      }
      SetIcons();
    }
  }

  /** Probing a device, writing "test 123" and reading it back gives "test 123\n". */
  method WriteThenRead() returns (text: seq<byte>)
    ensures text == Ascii("test 123\n")
  {
    var vfd := new Vfd();
    var _ := vfd.WriteText(Ascii("test 123"));
    text := vfd.ReadText();
    TestTextRoundTrip();
  }

  /**
   Lighting the same icon twice: the mask is as after the first call, and the
   same icons packet goes out twice.
   */
  method IconOnTwice(vfd: Vfd, i: nat)
    requires vfd.Valid() && vfd.LedMasks() && i < IconCount
    modifies vfd, vfd.packet
    ensures vfd.iconsMask == WithLed(old(vfd.iconsMask), IconBit(i), true)
    ensures vfd.sent == old(vfd.sent) + [IconsPacket(vfd.iconsMask), IconsPacket(vfd.iconsMask)]
  {
    vfd.SetIconLed(i, 1);
    vfd.SetIconLed(i, 1);
    WithLedIdempotent(old(vfd.iconsMask), IconBit(i), true);
  }

  /**
   A freshly probed device, and the same device after a lone newline is
   written, have no screen byte the as-written read loop can stop at.
   */
  method ProbeLeavesNoStop() returns (probed: bool, afterNewline: bool)
    ensures probed && afterNewline
  {
    var vfd := new Vfd();
    probed := !exists k :: 0 <= k < Width && !Trimmable(vfd.screen[k]);
    var _ := vfd.WriteText([NL]);
    afterNewline := !exists k :: 0 <= k < Width && !Trimmable(vfd.screen[k]);
  }

  /**
   Reading the screen right after probe (all zero), or after writing a lone
   newline, leaves the as-written loop no byte to stop at.
   */
  lemma ReadAfterProbeUnderflows()
    ensures forall k :: 0 <= k < Width ==> Trimmable(Zeros(Width)[k])
    ensures forall k :: 0 <= k < Width ==> Trimmable(PadToWidth([NL])[k])
  {
  }
}
