/**
 * The byte decoding of `midi_event_cb` in tulip/shared/py/midi.py: the
 * status byte split into message type and channel, the optional third byte,
 * the 14-bit pitch bend, and the choice of what the callback does with a
 * message.
 */
module MidiEvent {
  import opened Wrappers
  import opened Bits

  /** The first two or three bytes of a message of at least two bytes. */
  datatype Header = Header(message: nat, channel: nat, control: byte, value: Option<byte>)

  /**
   * Lines 570-576: messages shorter than two bytes are ignored; otherwise the
   * high nibble of the status byte is the message type, the low nibble plus
   * one is the channel, and the third byte, if any, is the value.
   */
  function DecodeHeader(m: seq<byte>): (r: Option<Header>)
    ensures r.None? <==> |m| < 2
    ensures r.Some? ==>
              && r.value.message % 16 == 0 && r.value.message < 0x100
              && 1 <= r.value.channel <= 16
              && r.value.message + (r.value.channel - 1) == m[0]
              && r.value.message == m[0] - m[0] % 16 && r.value.channel == m[0] % 16 + 1
              && r.value.control == m[1]
              && (r.value.value.Some? <==> |m| > 2)
              && (|m| > 2 ==> r.value.value == Some(m[2]))
  {
    if |m| < 2 then None
    else
      Nibbles(m[0]);
      Some(Header(BitAnd(m[0], 0xF0), BitAnd(m[0], 0x0F) + 1, m[1], if |m| > 2 then Some(m[2]) else None))
  }

  /** The status byte a sender builds for a message type and a channel 1..16. */
  function StatusByte(message: nat, channel: nat): nat
    requires channel >= 1
  {
    BitOr(message, channel - 1)
  }

  /** A status byte is the message type plus the channel less one. */
  lemma StatusByteSum(message: nat, channel: nat)
    requires message % 16 == 0 && 1 <= channel <= 16
    ensures StatusByte(message, channel) == message + channel - 1
  {
    var q := message / 16;
    SplitSixteen(message, q, 0);
    ShlConstants(q);
    assert Mask(4) == 15;
    OrShifted(q, channel - 1, 4);
  }

  /** The header of a two-byte message, in arithmetic terms. */
  lemma DecodeTwoBytes(b: byte, control: byte)
    ensures DecodeHeader([b, control]) == Some(Header(b - b % 16, b % 16 + 1, control, None))
  {
    Nibbles(b);
  }

  /** Building a status byte and decoding it gives back the type and the channel. */
  lemma HeaderRoundTrip(message: nat, channel: nat, control: byte)
    requires message < 0x100 && message % 16 == 0 && 1 <= channel <= 16
    ensures StatusByte(message, channel) < 0x100
    ensures DecodeHeader([StatusByte(message, channel), control]) == Some(Header(message, channel, control, None))
  {
    StatusByteSum(message, channel);
    SplitSixteen(message, message / 16, 0);
    var b: byte := message + channel - 1;
    SplitSixteen(b, message / 16, channel - 1);
    DecodeTwoBytes(b, control);
  }

  /** Decoding a status byte and building it again gives back the byte. */
  lemma StatusByteRoundTrip(m: seq<byte>)
    requires |m| >= 2
    ensures StatusByte(DecodeHeader(m).value.message, DecodeHeader(m).value.channel) == m[0]
  {
    var h := DecodeHeader(m).value;
    StatusByteSum(h.message, h.channel);
  }

  /** Line 604: `((m[2] << 7) | m[1]) - 8192`, the most significant byte first. */
  function PitchBend(lsb: byte, msb: byte): (r: int)
    ensures r >= -8192
    ensures lsb < 0x80 ==> r == msb * 128 + lsb - 8192
    ensures lsb < 0x80 && msb < 0x80 ==> -8192 <= r <= 8191
  {
    ShlConstants(msb);
    assert Mask(7) == 127;
    OrShifted(msb, if lsb < 0x80 then lsb else 0, 7);
    BitOr(Shl(msb, 7), lsb) - 8192
  }

  /** The two 7-bit data bytes a sender transmits for a bend in -8192..8191. */
  function PitchBendBytes(bend: int): (r: (byte, byte))
    requires -8192 <= bend <= 8191
    ensures r.0 < 0x80 && r.1 < 0x80
  {
    ((bend + 8192) % 128, (bend + 8192) / 128)
  }

  /** Encoding a bend and decoding it again gives it back, and the other way round for data bytes. */
  lemma PitchBendRoundTrip(bend: int, lsb: byte, msb: byte)
    requires -8192 <= bend <= 8191 && lsb < 0x80 && msb < 0x80
    ensures PitchBend(PitchBendBytes(bend).0, PitchBendBytes(bend).1) == bend
    ensures PitchBendBytes(PitchBend(lsb, msb)) == (lsb, msb)
  {
  }

  /** What the callback does with one message. */
  datatype Action =
    | Ignore
    | GlobalControl(control: byte, value: Option<byte>)
    | NoteOn(channel: nat, note: byte, velocity: byte)
    | NoteOff(channel: nat, note: byte)
    | ProgramChange(channel: nat, program: byte)
    | Sustain(channel: nat, on: bool)
    | Bend(bend: int)
    | AllNotesOff(channel: nat)
    /** a two-byte note-on (`None / 127.`) or pitch bend (`m[2]`) raises */
    | Raises

  /**
   * Lines 578-608: a control change bound in `globalControls` is handled on
   * any channel; everything else needs a synth on its channel, which
   * `channels` lists; then the message type chooses the action.
   */
  function Route(m: seq<byte>, globalControls: set<byte>, channels: set<nat>): (r: Action)
    ensures |m| < 2 ==> r == Ignore
    ensures r.GlobalControl? <==> |m| >= 2 && m[0] - m[0] % 16 == 0xB0 && m[1] in globalControls
    ensures r.GlobalControl? ==> r.control == m[1] && r.value == (if |m| > 2 then Some(m[2]) else None)
    ensures |m| >= 2 && !r.GlobalControl? && m[0] % 16 + 1 !in channels ==> r == Ignore
    ensures r.NoteOn? ==> |m| > 2 && r.channel in channels && r.channel == m[0] % 16 + 1 && r.note == m[1] && r.velocity == m[2]
    ensures r.Bend? ==> |m| > 2 && m[0] - m[0] % 16 == 0xE0 && r.bend == PitchBend(m[1], m[2])
    ensures r.NoteOff? ==> m[0] - m[0] % 16 == 0x80 && r.channel == m[0] % 16 + 1 && r.note == m[1]
    ensures r.Sustain? ==> m[0] - m[0] % 16 == 0xB0 && m[1] == 0x40 && (r.on <==> |m| > 2 && m[2] != 0)
    ensures r.Raises? <==>
              && |m| == 2 && m[0] % 16 + 1 in channels
              && (m[0] - m[0] % 16 == 0x90 || m[0] - m[0] % 16 == 0xE0)
    // and each message type on a configured channel reaches its own action
    ensures |m| > 2 && m[0] - m[0] % 16 == 0x90 && m[0] % 16 + 1 in channels ==> r == NoteOn(m[0] % 16 + 1, m[1], m[2])
    ensures |m| >= 2 && m[0] - m[0] % 16 == 0x80 && m[0] % 16 + 1 in channels ==> r == NoteOff(m[0] % 16 + 1, m[1])
    ensures |m| >= 2 && m[0] - m[0] % 16 == 0xC0 && m[0] % 16 + 1 in channels ==> r == ProgramChange(m[0] % 16 + 1, m[1])
    ensures |m| > 2 && m[0] - m[0] % 16 == 0xE0 && m[0] % 16 + 1 in channels ==> r == Bend(PitchBend(m[1], m[2]))
    ensures |m| >= 2 && m[0] - m[0] % 16 == 0xB0 && m[1] !in globalControls && m[0] % 16 + 1 in channels ==>
              r == if m[1] == 0x40 then Sustain(m[0] % 16 + 1, |m| > 2 && m[2] != 0)
                   else if m[1] == 123 then AllNotesOff(m[0] % 16 + 1)
                   else Ignore
    ensures |m| >= 2 && m[0] - m[0] % 16 !in {0x80, 0x90, 0xB0, 0xC0, 0xE0} ==> r == Ignore
  {
    match DecodeHeader(m)
    case None => Ignore
    case Some(h) =>
      if h.message == 0xB0 && h.control in globalControls then GlobalControl(h.control, h.value)
      else if h.channel !in channels then Ignore
      else if h.message == 0x90 then
        if h.value.None? then Raises else NoteOn(h.channel, h.control, h.value.value)
      else if h.message == 0x80 then NoteOff(h.channel, h.control)
      else if h.message == 0xC0 then ProgramChange(h.channel, h.control)
      else if h.message == 0xB0 && h.control == 0x40 then Sustain(h.channel, h.value.Some? && h.value.value != 0)
      else if h.message == 0xE0 then
        if |m| < 3 then Raises else Bend(PitchBend(m[1], m[2]))
      else if h.message == 0xB0 && h.control == 123 then AllNotesOff(h.channel)
      else Ignore
  }

  /** A note-on with velocity 0 reaches the synth as velocity 0, which `note_on` treats as a note-off. */
  lemma ZeroVelocityNoteOn(channel: nat, note: byte, channels: set<nat>)
    requires 1 <= channel <= 16 && channel in channels
    ensures StatusByte(0x90, channel) < 0x100
    ensures Route([StatusByte(0x90, channel), note, 0], {}, channels) == NoteOn(channel, note, 0)
  {
    HeaderRoundTrip(0x90, channel, note);
    var m: seq<byte> := [StatusByte(0x90, channel), note, 0];
    assert DecodeHeader(m).value.message == 0x90 && DecodeHeader(m).value.channel == channel;
  }
}
