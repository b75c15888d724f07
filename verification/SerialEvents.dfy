/** The event lines that a B2xx sends over its serial port: PHY error registers and USB events, decoded one
    character at a time. */
module SerialEvents {
  const PHY_ERROR_REGISTERS := 9

  /** What a line is made of: a PHY error register, as `a` and a letter, or an event byte, as two letters
      from A to P. */
  datatype Token = Phy(register: nat) | Event(byte: nat)

  predicate Encodable(t: Token) {
    match t
    case Phy(r) => r < PHY_ERROR_REGISTERS
    case Event(b) => b < 256
  }

  function EncodeOne(t: Token): string
    requires Encodable(t)
  {
    match t
    case Phy(r) => ['a', 'a' + r as char]
    case Event(b) => ['A' + (b / 16) as char, 'A' + (b % 16) as char]
  }

  function Encode(ts: seq<Token>): string
    requires forall t :: t in ts ==> Encodable(t)
  {
    if ts == [] then [] else EncodeOne(ts[0]) + Encode(ts[1..])
  }

  function Registers(ts: seq<Token>): seq<nat> {
    if ts == [] then [] else (if ts[0].Phy? then [ts[0].register] else []) + Registers(ts[1..])
  }

  function Events(ts: seq<Token>): seq<nat> {
    if ts == [] then [] else (if ts[0].Event? then [ts[0].byte] else []) + Events(ts[1..])
  }

  // ---------- the decoder ----------

  /** The type of what is being read: nothing yet, a register, or the second half of an event. */
  datatype State = Start | Register | SecondHalf(first: nat)

  /** What the decoder has come to: the registers printed, the events collected, and how many characters it
      could make nothing of. */
  datatype Decoded = Decoded(state: State, registers: seq<nat>, events: seq<nat>, unknown: nat)

  const NOTHING := Decoded(Start, [], [], 0)

  predicate HexLetter(c: char) { 'A' <= c <= 'P' }

  function Letter(c: char): nat
    requires HexLetter(c)
  {
    c as nat - 'A' as nat
  }

  function Step(d: Decoded, c: char): Decoded {
    match d.state
    case Start =>
      if c == 'a' then d.(state := Register)
      else if HexLetter(c) then d.(state := SecondHalf(Letter(c)))
      else d.(unknown := d.unknown + 1)
    case Register =>
      var i := c as int - 'a' as int;
      if i < 0 || i >= PHY_ERROR_REGISTERS then d.(state := Start, unknown := d.unknown + 1)
      else d.(state := Start, registers := d.registers + [i])
    case SecondHalf(first) =>
      if HexLetter(c) then d.(state := Start, events := d.events + [first * 16 + Letter(c)])
      else d.(state := Start, unknown := d.unknown + 1)
  }

  function DecodeFrom(d: Decoded, line: string): Decoded
    decreases |line|
  {
    if line == [] then d else DecodeFrom(Step(d, line[0]), line[1..])
  }

  /** The loop in recv_serial_data, on what follows the U. */
  method Decode(line: string) returns (state: State, registers: seq<nat>, events: seq<nat>, unknown: nat)
    ensures Decoded(state, registers, events, unknown) == DecodeFrom(NOTHING, line)
  {
    var data := line;
    state, registers, events, unknown := Start, [], [], 0;
    while |data| > 0
      invariant DecodeFrom(Decoded(state, registers, events, unknown), data) == DecodeFrom(NOTHING, line)
    {
      var c := data[0];
      match state {
        case Start =>
          if c == 'a' {
            state := Register;
          } else if 'A' <= c <= 'P' {
            state := SecondHalf(c as int - 'A' as int);
          } else {
            unknown := unknown + 1;
          }
        case Register =>
          var i := c as int - 'a' as int;
          if i < 0 || i >= PHY_ERROR_REGISTERS {
            unknown := unknown + 1;
          } else {
            registers := registers + [i];
          }
          state := Start;
        case SecondHalf(i) =>
          if c < 'A' || c > 'P' {
            unknown := unknown + 1;
          } else {
            events := events + [i * 16 + (c as int - 'A' as int)];
          }
          state := Start;
      }
      data := data[1..];
    }
  }

  // ---------- what is read ----------

  /** After an a, the letters up to i are the nine registers, and all else is unknown. */
  lemma RegisterLetters(d: Decoded, c: char)
    requires d.state == Register
    ensures 'a' <= c <= 'i' ==> Step(d, c) == d.(state := Start, registers := d.registers + [c as int - 'a' as int])
    ensures !('a' <= c <= 'i') ==> Step(d, c) == d.(state := Start, unknown := d.unknown + 1)
  {}

  /** How many characters of a token have been read. */
  function Pending(d: Decoded): nat { if d.state == Start then 0 else 1 }

  /** Every character is accounted for: two for each register and event, and one or two for each that is unknown. */
  lemma {:induction false} CharactersCounted(d: Decoded, line: string)
    ensures var e := DecodeFrom(d, line);
            var read := 2 * (|e.registers| - |d.registers|) + 2 * (|e.events| - |d.events|) + Pending(e) - Pending(d);
            && read + (e.unknown - d.unknown) <= |line| <= read + 2 * (e.unknown - d.unknown)
            && d.unknown <= e.unknown
    decreases |line|
  {
    if line != [] {
      CharactersCounted(Step(d, line[0]), line[1..]);
    }
  }

  // ---------- round trip ----------

  function Taken(d: Decoded, t: Token): Decoded {
    match t
    case Phy(r) => d.(registers := d.registers + [r])
    case Event(b) => d.(events := d.events + [b])
  }

  lemma TwoSteps(d: Decoded, t: Token)
    requires d.state == Start && Encodable(t)
    ensures Step(Step(d, EncodeOne(t)[0]), EncodeOne(t)[1]) == Taken(d, t)
  {}

  lemma OneToken(d: Decoded, t: Token, rest: string)
    requires d.state == Start && Encodable(t)
    ensures DecodeFrom(d, EncodeOne(t) + rest) == DecodeFrom(Taken(d, t), rest)
  {
    var s := EncodeOne(t) + rest;
    TwoSteps(d, t);
    assert s[0] == EncodeOne(t)[0] && s[1..][0] == EncodeOne(t)[1];
    hide Step, EncodeOne, Taken;
    assert s[1..][1..] == rest;
  }

  lemma TakenFirst(d: Decoded, ts: seq<Token>)
    requires ts != []
    ensures Taken(d, ts[0]).registers + Registers(ts[1..]) == d.registers + Registers(ts)
    ensures Taken(d, ts[0]).events + Events(ts[1..]) == d.events + Events(ts)
  {
    var more, later := Registers(ts[1..]), Events(ts[1..]);
    match ts[0] {
      case Phy(r) =>
        assert Registers(ts) == [r] + more && Events(ts) == [] + later;
        assert d.registers + [r] + more == d.registers + ([r] + more);
        assert [] + later == later;
      case Event(b) =>
        assert Registers(ts) == [] + more && Events(ts) == [b] + later;
        assert d.events + [b] + later == d.events + ([b] + later);
        assert [] + more == more;
    }
  }

  /** Any interleaving of registers and events is recovered, each kind in order, with nothing unknown, and the
      decoder ends where it began. */
  lemma {:induction false} DecodesWhatWasEncoded(d: Decoded, ts: seq<Token>)
    requires d.state == Start && forall t :: t in ts ==> Encodable(t)
    ensures DecodeFrom(d, Encode(ts))
         == Decoded(Start, d.registers + Registers(ts), d.events + Events(ts), d.unknown)
    decreases |ts|
  {
    if ts != [] {
      OneToken(d, ts[0], Encode(ts[1..]));
      TakenFirst(d, ts);
      hide Step, EncodeOne;
      DecodesWhatWasEncoded(Taken(d, ts[0]), ts[1..]);
    }
  }

  lemma {:induction false} UnknownStays(d: Decoded, line: string)
    ensures DecodeFrom(d, line).unknown >= d.unknown
    decreases |line|
  {
    if line != [] {
      UnknownStays(Step(d, line[0]), line[1..]);
    }
  }

  /** The token that the first two characters of a line make, if the decoder takes them. */
  lemma FirstToken(d: Decoded, line: string) returns (t: Token)
    requires d.state == Start && |line| >= 2
    requires Step(Step(d, line[0]), line[1]).unknown == d.unknown && Step(d, line[0]).state != Start
    ensures Encodable(t) && EncodeOne(t) == line[..2]
  {
    if line[0] == 'a' {
      t := Phy(line[1] as int - 'a' as int);
    } else {
      t := Event(Letter(line[0]) * 16 + Letter(line[1]));
    }
  }

  /** Conversely, a line in which nothing is unknown and nothing is left unfinished is the encoding of some
      tokens. */
  lemma {:induction false} CleanLinesAreEncoded(d: Decoded, line: string) returns (ts: seq<Token>)
    requires d.state == Start
    requires DecodeFrom(d, line).unknown == d.unknown && DecodeFrom(d, line).state == Start
    ensures (forall t :: t in ts ==> Encodable(t)) && Encode(ts) == line
    decreases |line|
  {
    if line == [] {
      return [];
    }
    var one := Step(d, line[0]);
    UnknownStays(one, line[1..]);
    var two := Step(one, line[1..][0]);
    assert line[1..][1..] == line[2..];
    UnknownStays(two, line[2..]);
    var t := FirstToken(d, line);
    var rest := CleanLinesAreEncoded(two, line[2..]);
    ts := [t] + rest;
    assert ts[1..] == rest && line == line[..2] + line[2..];
  }

  /** The lines that decode cleanly are exactly the encodings. */
  lemma CleanIffEncoded(line: string)
    ensures DecodeFrom(NOTHING, line).unknown == 0 && DecodeFrom(NOTHING, line).state == Start
       <==> exists ts: seq<Token> :: (forall t :: t in ts ==> Encodable(t)) && Encode(ts) == line
  {
    if DecodeFrom(NOTHING, line).unknown == 0 && DecodeFrom(NOTHING, line).state == Start {
      var ts := CleanLinesAreEncoded(NOTHING, line);
    }
    if exists ts: seq<Token> :: (forall t :: t in ts ==> Encodable(t)) && Encode(ts) == line {
      var ts: seq<Token> :| (forall t :: t in ts ==> Encodable(t)) && Encode(ts) == line;
      DecodesWhatWasEncoded(NOTHING, ts);
    }
  }
}
