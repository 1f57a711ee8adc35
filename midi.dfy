/** The device layer of `src/midi.rs`: LED colours and brightness, the four
    LED commands and the three-byte frames they become, and the connection's
    outgoing and incoming message streams. */
module Midi {
  import opened Bytes
  import opened Wrappers

  /** Status byte of Note On on channel 1 (`LED_SECTION`): sets a main-grid LED. */
  const LedSection: Byte := 0x90
  /** Status byte of Control Change on channel 1 (`CONTROL_SECTION`): sets a
      control-row LED, and marks control-row buttons in incoming messages. */
  const ControlSection: Byte := 176

  /** The hues the device palette is used for (`Colors`). */
  datatype Hue = Off | Green | Blue | Red | Purple

  datatype Brightness = Low | Medium | High

  datatype Color = Color(hue: Hue, brightness: Brightness)

  /** `Brightness::from(x)`: a tier for a small magnitude, 3 and below Low,
      7 and above High, Medium between. */
  function BrightnessFrom(x: Byte): Brightness
  {
    if x <= 3 then Low
    else if x >= 7 then High
    else Medium
  }

  /** Position of a tier in the order Low < Medium < High. */
  function Rank(b: Brightness): nat
  {
    match b
    case Low => 0
    case Medium => 1
    case High => 2
  }

  /** The three tiers split the byte range at 3/4 and 6/7. */
  lemma BrightnessTiers(x: Byte)
    ensures BrightnessFrom(x) == Low <==> x <= 3
    ensures BrightnessFrom(x) == Medium <==> 4 <= x <= 6
    ensures BrightnessFrom(x) == High <==> x >= 7
  {
  }

  /** A larger magnitude never gets a dimmer tier. */
  lemma BrightnessMonotone(x: Byte, y: Byte)
    requires x <= y
    ensures Rank(BrightnessFrom(x)) <= Rank(BrightnessFrom(y))
  {
  }

  /** `Into<u8> for Color`: the device's palette index for a colour. Codes are
      MIDI data bytes (at most 127), and 0 (LED off) is exactly the Off hue. */
  function Code(c: Color): (code: Byte)
    ensures code <= 127
    ensures code == 0 <==> c.hue == Off
  {
    match c.hue
    case Blue => (match c.brightness case High => 41 case Low => 42 case Medium => 40)
    case Green => (match c.brightness case High => 17 case Low => 16 case Medium => 18)
    case Off => 0
    case Purple => (match c.brightness case High => 49 case Low => 50 case Medium => 48)
    case Red => (match c.brightness case High => 5 case Low => 6 case Medium => 60)
  }

  /** The colour a palette index stands for, for the twelve lit codes. */
  function ColorOfCode(code: Byte): Option<Color>
  {
    match code
    case 41 => Some(Color(Blue, High))
    case 42 => Some(Color(Blue, Low))
    case 40 => Some(Color(Blue, Medium))
    case 17 => Some(Color(Green, High))
    case 16 => Some(Color(Green, Low))
    case 18 => Some(Color(Green, Medium))
    case 49 => Some(Color(Purple, High))
    case 50 => Some(Color(Purple, Low))
    case 48 => Some(Color(Purple, Medium))
    case 5 => Some(Color(Red, High))
    case 6 => Some(Color(Red, Low))
    case 60 => Some(Color(Red, Medium))
    case _ => None
  }

  /** Every lit colour can be read back from its code, and every code that
      reads back is the code of what it reads as. */
  lemma CodeRoundTrip(c: Color, code: Byte)
    ensures c.hue != Off ==> ColorOfCode(Code(c)) == Some(c)
    ensures ColorOfCode(code).Some? ==> ColorOfCode(code).value.hue != Off && Code(ColorOfCode(code).value) == code
  {
  }

  /** The twelve lit colours have twelve different codes. */
  lemma CodeInjective(c1: Color, c2: Color)
    requires c1.hue != Off && c2.hue != Off && Code(c1) == Code(c2)
    ensures c1 == c2
  {
    CodeRoundTrip(c1, 0);
    CodeRoundTrip(c2, 0);
  }

  /** `MidiControlMessage`: turn a control-row or main-grid LED on in a colour, or off. */
  datatype ControlMessage =
    | ControlLedOn(note: Byte, color: Color)
    | ControlLedOff(note: Byte)
    | LedOn(note: Byte, color: Color)
    | LedOff(note: Byte)

  /** A three-byte MIDI message `[status, note, velocity]`. */
  datatype Frame = Frame(status: Byte, note: Byte, velocity: Byte)

  /** The frame `Midi::send` writes for a command: the control or LED status
      byte, the note, and the colour code (0 to turn the LED off). */
  function FrameOf(msg: ControlMessage): (f: Frame)
    ensures f.status == LedSection || f.status == ControlSection
    ensures f.note == msg.note && f.velocity <= 127
  {
    match msg
    case ControlLedOff(note) => Frame(ControlSection, note, 0)
    case ControlLedOn(note, color) => Frame(ControlSection, note, Code(color))
    case LedOn(note, color) => Frame(LedSection, note, Code(color))
    case LedOff(note) => Frame(LedSection, note, 0)
  }

  /** The command a frame carries, read back: the section from the status
      byte, off for velocity 0, otherwise the colour of the code. */
  function CommandOf(f: Frame): Option<ControlMessage>
  {
    if f.status != ControlSection && f.status != LedSection then None
    else if f.velocity == 0 then
      Some(if f.status == ControlSection then ControlLedOff(f.note) else LedOff(f.note))
    else match ColorOfCode(f.velocity)
      case None => None
      case Some(c) => Some(if f.status == ControlSection then ControlLedOn(f.note, c) else LedOn(f.note, c))
  }

  /** An "on" command whose hue is Off puts the same bytes on the wire as the
      matching "off" command; this maps such a command to that "off" command. */
  function Canonical(msg: ControlMessage): ControlMessage
  {
    match msg
    case ControlLedOn(note, color) => if color.hue == Off then ControlLedOff(note) else msg
    case LedOn(note, color) => if color.hue == Off then LedOff(note) else msg
    case _ => msg
  }

  /** Reading a sent frame back gives the command that was sent, with an
      "on in hue Off" command read as the "off" command. */
  lemma FrameRoundTrip(msg: ControlMessage)
    ensures CommandOf(FrameOf(msg)) == Some(Canonical(msg))
  {
    match msg
    case ControlLedOn(_, c) => CodeRoundTrip(c, 0);
    case LedOn(_, c) => CodeRoundTrip(c, 0);
    case _ =>
  }

  /** Two commands produce the same frame exactly when they mean the same thing. */
  lemma FrameInjective(m1: ControlMessage, m2: ControlMessage)
    ensures FrameOf(m1) == FrameOf(m2) <==> Canonical(m1) == Canonical(m2)
  {
    FrameRoundTrip(m1);
    FrameRoundTrip(m2);
    if Canonical(m1) == Canonical(m2) {
      CanonicalFrame(m1);
      CanonicalFrame(m2);
    }
  }

  /** A command and its canonical form produce the same frame. */
  lemma CanonicalFrame(msg: ControlMessage)
    ensures FrameOf(Canonical(msg)) == FrameOf(msg)
  {
  }

  /** `MidiIncomingMessage`: a device timestamp and the three received bytes. */
  datatype IncomingMessage = IncomingMessage(time: nat, data: Frame)

  /** The `Midi` struct as the main loop sees it: the frames written to the
      output connection, oldest first, and the messages the input callback
      has queued and the loop has not yet taken, oldest first. */
  class Midi {
    var sent: seq<Frame>
    var incoming: seq<IncomingMessage>

    /** `send(msg)`: writes exactly one frame, that of `msg`; send errors are ignored. */
    method Send(msg: ControlMessage)
      modifies this`sent
      ensures sent == old(sent) + [FrameOf(msg)]
    {
      sent := sent + [FrameOf(msg)];
    }

    /** `incoming.try_recv()`: takes the oldest queued message, or reports that
      none is queued, without waiting. */
    method TryRecv() returns (r: Option<IncomingMessage>)
      modifies this`incoming
      ensures old(incoming) == [] ==> r == None && incoming == []
      ensures old(incoming) != [] ==> r == Some(old(incoming)[0]) && incoming == old(incoming)[1..]
    {
      if incoming == [] {
        r := None;
      } else {
        r := Some(incoming[0]);
        incoming := incoming[1..];
      }
    }
  }
}
