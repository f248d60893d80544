# Shuttle VFD driver model

This is a Dafny model of the core of the Linux driver for the Shuttle VFD. The
VFD is a 20x1 vacuum-fluorescent display with 15 binary icons and a 12-level
volume bar, driven over USB with 8-byte packets.

The model has two modules:

- `VfdProtocol` (`protocol.dfy`) holds the wire format as values:
  - the clear, icons and text packets, and what a receiver decodes from them;
  - the split of a text into 7-byte chunks;
  - the icon-mask updates made by the LED callbacks;
  - the trimming done when the text is read back.
- `ShuttleVfd` (`device.dfy`) holds one attached device as the class `Vfd`.
  - Its fields are the 64-bit icon mask, the 8-byte packet buffer, the 20-byte
    screen buffer and the per-LED masks.
  - Each driver routine is a method that updates these buffers in place and
    "sends" the packet buffer.
  - Sending appends the buffer's contents to a ghost log, `sent`. Every method
    states the exact packets it adds to that log.

The packet bytes and the screen are the newtype `byte` (0..255). The icon mask
is a `bv64`, matching `unsigned long` on a 64-bit kernel.

## Model

| member | source | states |
|---|---|---|
| ShuttleVfd.Vfd.constructor | shuttle_leds.c:253-302 | Probe leaves a zero mask and a zero screen. Icon LED i gets mask 1 << i. Exactly one full-clear packet has been sent. |
| ShuttleVfd.Vfd.SendPacket | shuttle_leds.c:104-128 | Sending appends the packet buffer's current 8 bytes to the log, and changes nothing else. |
| ShuttleVfd.Vfd.ResetCursor | shuttle_leds.c:130-141 | The packet buffer becomes the clear packet (full clear or cursor reset), and exactly that packet is appended to the log. |
| VfdProtocol.ClearPacket | shuttle_leds.c:130-141 | The clear packet is well formed, with command 1 and length 1. Its data byte is 1 for a full clear and 2 for a cursor reset, and every later byte is zero. |
| ShuttleVfd.Vfd.SetIcons | shuttle_leds.c:143-152 | The packet buffer becomes the icons packet of the current mask, and exactly that packet is sent. |
| VfdProtocol.IconsPacketFields | shuttle_leds.c:143-152 | An icons packet is well formed, with command 7 and length 4. Its four data bytes are below 32 and its last three bytes are zero. |
| VfdProtocol.FiveBitsValue | shuttle_leds.c:147-150 | Each icon data byte is below 32 and equals the five mask bits it was cut from. |
| VfdProtocol.IconsRoundTrip | shuttle_leds.c:147-150 | Reassembling the four 5-bit groups gives back exactly the low 20 bits of the mask. |
| ShuttleVfd.Vfd.SetText | shuttle_leds.c:154-173 | The packets sent are exactly `TextPackets` of the first len screen bytes. |
| ShuttleVfd.Vfd.ZeroPacket | shuttle_leds.c:168 | The whole packet buffer becomes zero bytes. |
| ShuttleVfd.Vfd.CopyToPacket | shuttle_leds.c:159-170 | Bytes 1..n of the packet buffer become the n screen bytes from the current text offset. The header byte and the bytes after n keep their old values. |
| VfdProtocol.TextPacketFields | shuttle_leds.c:160-171 | A text packet for a chunk of n <= 7 bytes is well formed, with command 9 and length n. It carries exactly the chunk and is zero after it. |
| VfdProtocol.FullChunksPayloads | shuttle_leds.c:159-164 | The first n full packets all have header 0x97, and their payloads joined are the first 7n text bytes. |
| VfdProtocol.TextPacketsDecode | shuttle_leds.c:154-173 | A text of length L is sent as L/7 packets, plus one when 7 does not divide L. All are well formed, and their payloads joined give the text back. |
| VfdProtocol.TextPacketsHeaders | shuttle_leds.c:159-171 | The full packets have header 0x97. The remainder packet has header 0x90 + L%7 and zero bytes after its data. |
| VfdProtocol.FullScreenPackets | shuttle_leds.c:190 | Sending the whole 20-byte screen produces exactly three text packets, carrying bytes 0..6, 7..13 and 14..19. |
| ShuttleVfd.Vfd.WriteText | shuttle_leds.c:176-193 | The screen becomes the first min(count, 20) bytes of the input, zero-padded. The sent packets are a cursor reset followed by the three screen packets. The input length is returned, and the icon mask is unchanged. |
| VfdProtocol.PadToWidth | shuttle_leds.c:184-188 | The new screen is 20 bytes. It starts with the first min(count, 20) input bytes and is zero after them. |
| ShuttleVfd.Vfd.ReadText | shuttle_leds.c:196-211 | The result is the screen with its trailing NUL and newline bytes cut off, plus one newline: `ReadResult(screen)`. A blank screen reads as a lone newline. |
| ShuttleVfd.Vfd.ReadTextAsWritten | shuttle_leds.c:196-211 | The loop has no lower bound, as in the driver. When the screen holds a byte that is neither NUL nor newline, the result is `ReadResult(screen)`, at least 2 bytes long. |
| VfdProtocol.TrimmedLength | shuttle_leds.c:206-207 | The kept length n is at most the screen length. The byte before n is neither NUL nor newline, and every byte from n on is. |
| VfdProtocol.TrimmedLengthUnique | shuttle_leds.c:206-207 | Only one cut has a kept last byte and a trimmable tail: the one the trimming loop stops at. |
| VfdProtocol.TrimmedLengthPadded | shuttle_leds.c:184-207 | Zero padding added by a write never changes the length that a read keeps. |
| VfdProtocol.ReadAfterWrite | shuttle_leds.c:176-211 | Reading after a write returns the written bytes (at most 20) without their trailing NUL and newline bytes, plus one newline. |
| VfdProtocol.TestTextRoundTrip | shuttle_leds.c:176-211 | Writing "test 123" and reading back gives "test 123\n". |
| ShuttleVfd.WriteThenRead | shuttle_leds.c:176-211 | On a freshly probed device, writing "test 123" and then reading gives "test 123\n". |
| ShuttleVfd.Vfd.SetIconLed | shuttle_leds.c:213-224 | A nonzero brightness ORs in icon i's bit and zero clears it. One icons packet of the new mask is sent. |
| VfdProtocol.IconBitIsShift | shuttle_leds.c:269 | The LED mask of icon i is 1 << i. |
| VfdProtocol.IconBitInPacket | shuttle_leds.c:269 | Every icon LED's bit lies within the 20 bits an icons packet carries. |
| VfdProtocol.IconKeepsVolume | shuttle_leds.c:218-221 | Switching an icon LED on or off leaves the volume field (the mask shifted right by 15) exactly as it was. |
| VfdProtocol.WithLedBits | shuttle_leds.c:218-221 | Switching an LED on sets all its bits and switching it off clears them. Every other bit is kept. |
| VfdProtocol.LedReachesReceiver | shuttle_leds.c:213-224 | After an LED within the low 20 bits is switched, the receiver decodes its bits as all set (on) or all clear (off). |
| VfdProtocol.WithLedIdempotent | shuttle_leds.c:218-221 | Switching an LED to the same state twice leaves the mask as one switch does. |
| ShuttleVfd.IconOnTwice | shuttle_leds.c:213-224 | Lighting the same icon twice gives the mask of one call and sends two identical icons packets. |
| ShuttleVfd.Vfd.SetVolume | shuttle_leds.c:226-235 | The mask becomes `WithVolume(old mask, value)`: bits 0..14 kept, and the level in the field from bit 15 up. One icons packet of the new mask is sent. |
| VfdProtocol.Level | shuttle_leds.c:226-235 | A brightness of at most 12, as a mask word, is at most 12, and zero only when the brightness is zero. |
| VfdProtocol.LevelIsValue | shuttle_leds.c:231-233 | The level stored in the mask is the brightness value itself. |
| VfdProtocol.WithVolumeBits | shuttle_leds.c:231-233 | After a volume change, bits 0..14 equal the old ones, and the mask shifted right by 15 is exactly the level. Any older level is gone. |
| VfdProtocol.VolumeFitsPacket | shuttle_leds.c:231-233 | After a volume change, the mask has nothing above bit 19. |
| VfdProtocol.VolumeInIconsPacket | shuttle_leds.c:226-235 | The receiver decodes the whole new mask, icons and level, from the icons packet. |
| VfdProtocol.VolumeKeepsIconBytes | shuttle_leds.c:147-150 | After a volume change, data bytes 2..4 of the icons packet are those of the icons alone. |
| VfdProtocol.VolumeByte | shuttle_leds.c:226-235 | After a volume change, data byte 1 of the icons packet equals the brightness value. |
| ShuttleVfd.ProbeLeavesNoStop | shuttle_leds.c:204-207 | On a freshly probed device, and after it is written a lone newline, every screen byte is NUL or newline, so the as-written read loop has nowhere to stop. |
| ShuttleVfd.ReadAfterProbeUnderflows | shuttle_leds.c:206-207 | Every byte of the screen left by probe is trimmable, so the unguarded trimming loop finds no byte to stop at. |

## Left out

- USB transport: the control message, its result code and the error log line. Sending is the ghost log `sent`.
- The device mutex and the 24 ms sleep. The model is single-threaded and untimed.
- LED class registration and the sysfs attribute file. The callbacks are called directly as methods.
- The probe interface-number check, its error unwinding, disconnect, module init and exit, and the device ID table.
- The LED names, the per-LED back pointer to the device, and the `container_of` step.
- `icons_mask` is 32 bits wide on a 32-bit kernel. The model uses 64 bits; only bits 0..19 are ever sent.
- ShuttleVfd.Vfd.SetVolume: requires a brightness of at most 12. The driver itself does not check the value, and relies on the LED class core to cap it at max_brightness.
- The driver does not clamp brightness values itself. An icon LED treats every nonzero brightness as on, and so does the model.
- The sysfs write handler gets at most one page of input. Here the input is any byte sequence.

## Findings

| source | as written | input that shows it | evidently intended | confidence | as-written member | corrected member |
|---|---|---|---|---|---|---|
| shuttle_leds.c:206-207 | The trimming loop tests `buf[sz-1]` with no `sz > 0` bound. | Read the text attribute right after probe: the screen is all zero. Or read after writing "\n". Then sz reaches 0 and `buf[-1]` is read. | Stop at sz == 0 and return a lone newline. | not executed | ShuttleVfd.Vfd.ReadTextAsWritten, ShuttleVfd.ProbeLeavesNoStop, ShuttleVfd.ReadAfterProbeUnderflows | ShuttleVfd.Vfd.ReadText |
