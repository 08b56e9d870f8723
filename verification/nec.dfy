/** The NEC and NECx edge handler (`irISR` of src/IRsmallD_NEC.h).

    Pulse-distance coding: the handler runs on one edge per mark and sees
    the time since the previous such edge. A gap moves it out of standby,
    a leading mark starts a frame of 32 bit marks (short = 0, long = 1,
    least significant bit first), and a repeat mark after a decoded frame
    reports a held key once the first two have been ignored.
 */
module Nec {
  import opened Bits
  import opened Mailbox

  /** Which decoder is compiled in: NEC (8-bit address checked against the
      next byte) or NECx (16-bit address, no address check). */
  datatype Variant = Standard | Extended

  // Thresholds in µs, the truncated values of the source's floating-point expressions.
  const GapMin: u32 := 34256
  const GapMax: u32 := 136743
  const RepeatMarkMin: u32 := 1968
  const RepeatMarkMax: u32 := 3616
  const LeadMarkMin: u32 := RepeatMarkMax + 1
  const LeadMarkMax: u32 := 6581
  const Mark0Min: u32 := 787
  const Mark1Min: u32 := 1575
  const Mark1Max: u32 := 2925

  /** Repeat marks swallowed before a held key is reported. */
  const RptCount: u8 := 2

  datatype Phase = Standby | StartPulse | Receiving

  /** The handler's static variables. `signal` is the 32-bit buffer; each
      received bit enters at bit 31 and moves down one place per later bit. */
  datatype State = State(phase: Phase, bitCount: u8, signal: Word32, repeatCount: u8, possiblyHeld: bool)

  function Init(): (s: State)
    ensures s.phase == Standby && !s.possiblyHeld && s.repeatCount == 0
    ensures Valid(s)
  {
    State(Standby, 0, Zeros(32), 0, false)
  }

  /** While receiving, fewer than 32 bits have arrived. */
  predicate Valid(s: State)
  {
    s.phase == Receiving ==> s.bitCount < 32
  }

  predicate IsLeadingMark(d: u32) { LeadMarkMin <= d <= LeadMarkMax }
  predicate IsRepeatMark(d: u32) { RepeatMarkMin <= d <= RepeatMarkMax }
  predicate IsBitMark(d: u32) { Mark0Min <= d <= Mark1Max }

  /** The bit a bit mark carries: a long mark is a 1. */
  function BitOf(d: u32): bool { d >= Mark1Min }

  /** Byte k+1 of the buffer is the complement of byte k. */
  predicate Complements(w: Word32, k: nat)
    requires k < 3
  {
    Byte(w, k) == Not(Byte(w, k + 1))
  }

  /** The command check of a complete frame: byte 2 against byte 3. */
  predicate CommandOk(w: Word32) { Complements(w, 2) }

  /** The address check, made by standard NEC only: byte 0 against byte 1. */
  predicate AddressOk(v: Variant, w: Word32) { v == Extended || Complements(w, 0) }

  /** The address of a complete frame: byte 0, or bytes 0 and 1 little-endian for NECx. */
  function Address(v: Variant, w: Word32): (r: u16)
    ensures r % 0x100 == Value(Byte(w, 0))
    ensures v == Standard ==> r < 0x100
    ensures v == Extended ==> r / 0x100 == Value(Byte(w, 1))
  {
    match v
    case Standard => ByteValue(Byte(w, 0))
    case Extended => ByteValue(Byte(w, 0)) + 0x100 * ByteValue(Byte(w, 1))
  }

  /** The command a complete frame announces. `ext` is not written by NEC. */
  function Decode(v: Variant, w: Word32, ext: u8): (r: IrData)
    ensures !r.keyHeld && r.ext == ext
    ensures r.cmd == Value(Byte(w, 2))
  {
    IrData(Address(v, w), ByteValue(Byte(w, 2)), ext, false)
  }

  /** One edge: `d` is the time since the previous edge, `m` the shared slot. */
  function Step(v: Variant, s: State, m: Mailbox, d: u32): (r: Stepped<State>)
    ensures r.mailbox.copying == m.copying
    ensures m.copying ==> r.mailbox == m
    ensures d < Mark0Min ==> r.fsm.phase == Standby
    ensures Valid(s) ==> Valid(r.fsm)
    ensures r.mailbox == m || r.mailbox == MarkHeld(m)
            || (r.mailbox == Deliver(m, Decode(v, r.fsm.signal, m.data.ext)) && CommandOk(r.fsm.signal))
  {
    match s.phase
    case Standby =>
      if d > GapMin then
        Stepped(s.(phase := StartPulse, possiblyHeld := s.possiblyHeld && d <= GapMax), m)
      else
        Stepped(s.(possiblyHeld := false), m)
    case StartPulse =>
      if IsLeadingMark(d) then
        Stepped(s.(phase := Receiving, bitCount := 0, repeatCount := 0), m)
      else if s.possiblyHeld && IsRepeatMark(d) then
        if s.repeatCount < RptCount then
          Stepped(s.(phase := Standby, repeatCount := s.repeatCount + 1), m)
        else
          Stepped(s.(phase := Standby), MarkHeld(m))
      else
        Stepped(s.(phase := Standby), m)
    case Receiving =>
      if !IsBitMark(d) then
        Stepped(s.(phase := Standby), m)
      else
        var w := PushMsb(s.signal, BitOf(d));
        var n := Inc8(s.bitCount);
        if v == Standard && n == 16 then
          // at 16 bits, bytes 2 and 3 of the buffer hold the address and its complement
          Stepped(s.(phase := if Complements(w, 2) then Receiving else Standby, bitCount := n, signal := w), m)
        else if n == 32 then
          if !m.copying && CommandOk(w) then
            Stepped(State(Standby, n, w, s.repeatCount, true), Deliver(m, Decode(v, w, m.data.ext)))
          else
            Stepped(s.(phase := Standby, bitCount := n, signal := w), m)
        else
          Stepped(s.(bitCount := n, signal := w), m)
  }

  /** The handler run over a sequence of edges, oldest first. */
  function Run(v: Variant, s: State, m: Mailbox, ds: seq<u32>): (r: Stepped<State>)
    ensures r.mailbox.copying == m.copying
    ensures m.copying ==> r.mailbox == m
    ensures Valid(s) ==> Valid(r.fsm)
    decreases |ds|
  {
    if |ds| == 0 then Stepped(s, m)
    else
      var p := Run(v, s, m, ds[..|ds| - 1]);
      Step(v, p.fsm, p.mailbox, ds[|ds| - 1])
  }

  lemma {:induction false} RunAppend(v: Variant, s: State, m: Mailbox, a: seq<u32>, b: seq<u32>)
    ensures var p := Run(v, s, m, a);
            Run(v, s, m, a + b) == Run(v, p.fsm, p.mailbox, b)
    decreases |b|
  {
    if |b| > 0 {
      RunAppend(v, s, m, a, b[..|b| - 1]);
      assert (a + b)[..|a + b| - 1] == a + b[..|b| - 1];
      assert (a + b)[|a + b| - 1] == b[|b| - 1];
    } else {
      assert a + b == a;
    }
  }

  lemma RunPair(v: Variant, s: State, m: Mailbox, d1: u32, d2: u32)
    ensures var p := Step(v, s, m, d1);
            Run(v, s, m, [d1, d2]) == Step(v, p.fsm, p.mailbox, d2)
  {
    assert [d1, d2][..1] == [d1];
    assert [d1][..0] == [];
    assert Run(v, s, m, [d1]) == Step(v, s, m, d1);
  }

  // ---------------------------------------------------------------------------
  // Durations as a transmitter produces them

  /** `ds` is a run of bit marks carrying `bits`, one mark per bit. */
  predicate Carries(ds: seq<u32>, bits: seq<bool>)
  {
    |ds| == |bits| && forall i :: 0 <= i < |ds| ==> IsBitMark(ds[i]) && BitOf(ds[i]) == bits[i]
  }

  /** The 32 bits a standard NEC remote sends, in order: address, its
      complement, command, its complement, each least significant bit first. */
  function NecBits(addr: u8, cmd: u8): (r: Word32)
  {
    LsbBits(addr, 8) + Not(LsbBits(addr, 8)) + LsbBits(cmd, 8) + Not(LsbBits(cmd, 8))
  }

  /** The 32 bits an NECx remote sends: the 16-bit address low byte first,
      then the command and its complement. */
  function NecxBits(addr: u16, cmd: u8): (r: Word32)
  {
    LsbBits(addr % 0x100, 8) + LsbBits(addr / 0x100, 8) + LsbBits(cmd, 8) + Not(LsbBits(cmd, 8))
  }

  // ---------------------------------------------------------------------------
  // Window facts

  /** The repeat-mark and leading-mark windows are adjacent and do not overlap,
      and every window lies above the smallest bit mark. */
  lemma WindowsDisjoint(d: u32)
    ensures !(IsRepeatMark(d) && IsLeadingMark(d))
    ensures RepeatMarkMax + 1 == LeadMarkMin
    ensures IsBitMark(d) ==> !IsLeadingMark(d) && d <= GapMin
    ensures IsRepeatMark(d) || IsLeadingMark(d) <==> RepeatMarkMin <= d <= LeadMarkMax
  {
  }

  // ---------------------------------------------------------------------------
  // Receiving a frame

  /** k bit marks after a leading mark: the buffer holds the k bits on top of
      what was left in it, and nothing is written to the slot. */
  lemma {:induction false} ReceivePrefix(v: Variant, s: State, m: Mailbox, ds: seq<u32>, bits: Word32)
    requires s.phase == Receiving && s.bitCount == 0
    requires |ds| < 32 && Carries(ds, bits[..|ds|])
    requires |ds| >= 16 ==> AddressOk(v, bits)
    ensures Run(v, s, m, ds) == Stepped(s.(bitCount := |ds|, signal := s.signal[|ds|..] + bits[..|ds|]), m)
    decreases |ds|
  {
    var k := |ds|;
    if k > 0 {
      CarriesPrefix(ds, bits[..k], k - 1);
      assert bits[..k][..k - 1] == bits[..k - 1];
      ReceivePrefix(v, s, m, ds[..k - 1], bits);
      PrefixStep(v, s, m, ds, bits);
    } else {
      assert s.signal[0..] + bits[..0] == s.signal;
    }
  }

  /** The inductive step of ReceivePrefix: the k-th bit mark on top of the
      first k - 1. */
  lemma PrefixStep(v: Variant, s: State, m: Mailbox, ds: seq<u32>, bits: Word32)
    requires s.phase == Receiving && s.bitCount == 0
    requires 1 <= |ds| < 32 && IsBitMark(ds[|ds| - 1]) && BitOf(ds[|ds| - 1]) == bits[|ds| - 1]
    requires |ds| >= 16 ==> AddressOk(v, bits)
    requires var j := |ds| - 1;
             Run(v, s, m, ds[..j]) == Stepped(s.(bitCount := j, signal := s.signal[j..] + bits[..j]), m)
    ensures Run(v, s, m, ds) == Stepped(s.(bitCount := |ds|, signal := s.signal[|ds|..] + bits[..|ds|]), m)
  {
    var k := |ds|;
    var p := Run(v, s, m, ds[..k - 1]);
    ShiftIn(s.signal, bits, k - 1);
    if v == Standard && k == 16 {
      AddressAtSixteen(s.signal[15..], bits);
    }
    ReceiveOne(v, p.fsm, m, ds[k - 1]);
  }

  /** A prefix of a run of bit marks carries the matching prefix of the bits. */
  lemma CarriesPrefix(ds: seq<u32>, bits: seq<bool>, j: nat)
    requires Carries(ds, bits) && j < |ds|
    ensures Carries(ds[..j], bits[..j])
    ensures IsBitMark(ds[j]) && BitOf(ds[j]) == bits[j]
  {
    forall i | 0 <= i < j
      ensures IsBitMark(ds[..j][i]) && BitOf(ds[..j][i]) == bits[..j][i]
    {
      assert ds[..j][i] == ds[i];
    }
  }

  /** One bit mark before the last: one more bit in the buffer, nothing written. */
  lemma ReceiveOne(v: Variant, s: State, m: Mailbox, d: u32)
    requires s.phase == Receiving && s.bitCount < 31 && IsBitMark(d)
    requires v == Standard && s.bitCount == 15 ==> Complements(PushMsb(s.signal, BitOf(d)), 2)
    ensures Step(v, s, m, d) == Stepped(s.(bitCount := s.bitCount + 1, signal := PushMsb(s.signal, BitOf(d))), m)
  {
  }

  /** The 32nd bit mark: the buffer is exactly the frame, whatever it held
      before the leading mark, and the frame is delivered if its command
      passes the check and nobody is copying. */
  lemma ReceiveFrame(v: Variant, s: State, m: Mailbox, ds: seq<u32>, bits: Word32)
    requires s.phase == Receiving && s.bitCount == 0
    requires Carries(ds, bits) && AddressOk(v, bits)
    ensures var r := Run(v, s, m, ds);
            r.fsm.phase == Standby && r.fsm.signal == bits && r.fsm.repeatCount == s.repeatCount
            && r.mailbox == (if CommandOk(bits) then Deliver(m, Decode(v, bits, m.data.ext)) else m)
            && r.fsm.possiblyHeld == (s.possiblyHeld || (CommandOk(bits) && !m.copying))
  {
    var prefix := ds[..31];
    assert Carries(prefix, bits[..31]) by {
      forall i | 0 <= i < 31
        ensures IsBitMark(prefix[i]) && BitOf(prefix[i]) == bits[..31][i]
      {
        assert prefix[i] == ds[i];
      }
    }
    ReceivePrefix(v, s, m, prefix, bits);
    assert ds == prefix + [ds[31]];
    var w0 := s.signal[31..] + bits[..31];
    assert PushMsb(w0, BitOf(ds[31])) == bits by {
      assert w0[1..] == bits[..31];
      assert bits == bits[..31] + [bits[31]];
    }
  }

  /** A whole standard-NEC or NECx transmission from standby: gap, leading
      mark, then 32 bit marks. A frame whose address check fails (standard
      NEC) or whose command check fails leaves the slot untouched; otherwise
      the decoded command is delivered and a held key becomes possible. */
  lemma {:induction false} DecodeTransmission(v: Variant, s: State, m: Mailbox, gap: u32, lead: u32, ds: seq<u32>, bits: Word32)
    requires s.phase == Standby
    requires GapMin < gap && IsLeadingMark(lead) && Carries(ds, bits)
    ensures var r := Run(v, s, m, [gap, lead] + ds);
            r.fsm.phase == Standby
            && r.mailbox == (if AddressOk(v, bits) && CommandOk(bits)
                             then Deliver(m, Decode(v, bits, m.data.ext)) else m)
            && (AddressOk(v, bits) && CommandOk(bits) && !m.copying ==> r.fsm.possiblyHeld && r.fsm.repeatCount == 0)
  {
    RunAppend(v, s, m, [gap, lead], ds);
    assert [gap, lead] == [gap] + [lead];
    var p := Run(v, s, m, [gap, lead]);
    RunPair(v, s, m, gap, lead);
    if AddressOk(v, bits) {
      ReceiveFrame(v, p.fsm, m, ds, bits);
    } else {
      AddressMismatchAborts(p.fsm, m, ds, bits);
    }
  }

  /** Standard NEC: a frame whose address byte is not complemented by the
      next byte drops to standby at the 16th bit, and the remaining bit marks
      are too short to leave standby. Nothing is delivered. */
  lemma AddressMismatchAborts(s: State, m: Mailbox, ds: seq<u32>, bits: Word32)
    requires s.phase == Receiving && s.bitCount == 0
    requires Carries(ds, bits) && !AddressOk(Standard, bits)
    ensures Run(Standard, s, m, ds).fsm.phase == Standby
    ensures Run(Standard, s, m, ds).mailbox == m
  {
    var head, rest := ds[..15], ds[15..];
    CarriesPrefix(ds, bits, 15);
    ReceivePrefix(Standard, s, m, head, bits);
    AddressAtSixteen(s.signal[15..], bits);
    RunAppend(Standard, s, m, head, rest);
    assert head + rest == ds;
    forall i | 1 <= i < |rest|
      ensures rest[i] <= GapMin
    {
      assert rest[i] == ds[15 + i];
    }
    AbortAndIdle(s.(bitCount := 15, signal := s.signal[15..] + bits[..15]), m, rest);
  }

  /** Standard NEC, at the 16th bit of a frame whose address check fails:
      the frame ends, and the bit marks after it do not leave standby. */
  lemma AbortAndIdle(s: State, m: Mailbox, rest: seq<u32>)
    requires s.phase == Receiving && s.bitCount == 15 && |rest| >= 1 && IsBitMark(rest[0])
    requires !Complements(PushMsb(s.signal, BitOf(rest[0])), 2)
    requires forall i :: 1 <= i < |rest| ==> rest[i] <= GapMin
    ensures Run(Standard, s, m, rest).fsm.phase == Standby
    ensures Run(Standard, s, m, rest).mailbox == m
  {
    RunAppend(Standard, s, m, [rest[0]], rest[1..]);
    assert [rest[0]] + rest[1..] == rest;
    assert [rest[0]][..0] == [];
    SixteenthBit(s, m, rest[0]);
    var p := Run(Standard, s, m, [rest[0]]);
    StandbyIgnoresMarks(Standard, p.fsm, m, rest[1..]);
  }

  /** After the 16th bit, bytes 2 and 3 of the register are the first two
      bytes sent, whatever the register held before the frame. */
  lemma AddressAtSixteen(stale: seq<bool>, bits: Word32)
    requires |stale| == 17
    ensures Complements(PushMsb(stale + bits[..15], bits[15]), 2) == Complements(bits, 0)
  {
    var w := PushMsb(stale + bits[..15], bits[15]);
    PushAbove(stale, bits[..15], bits[15]);
    assert bits[..15] + [bits[15]] == bits[..16];
    HighBytes(w, stale[1..], bits[..16]);
    assert bits[..16][..8] == Byte(bits, 0) && bits[..16][8..] == Byte(bits, 1);
  }

  /** Standard NEC: the 16th bit mark ends the frame when the address check fails. */
  lemma SixteenthBit(s: State, m: Mailbox, d: u32)
    requires s.phase == Receiving && s.bitCount == 15 && IsBitMark(d)
    requires !Complements(PushMsb(s.signal, BitOf(d)), 2)
    ensures Step(Standard, s, m, d).fsm.phase == Standby && Step(Standard, s, m, d).mailbox == m
  {
  }

  /** The top half of a 32-bit register, read as bytes 2 and 3. */
  lemma HighBytes(w: Word32, low: seq<bool>, high: seq<bool>)
    requires w == low + high && |high| == 16
    ensures Byte(w, 2) == high[..8] && Byte(w, 3) == high[8..]
  {
  }

  /** Bit marks that arrive in standby are shorter than any gap: the handler
      stays in standby and writes nothing. */
  lemma {:induction false} StandbyIgnoresMarks(v: Variant, s: State, m: Mailbox, ds: seq<u32>)
    requires s.phase == Standby
    requires forall i :: 0 <= i < |ds| ==> ds[i] <= GapMin
    ensures Run(v, s, m, ds).fsm.phase == Standby
    ensures Run(v, s, m, ds).mailbox == m
    decreases |ds|
  {
    if |ds| > 0 {
      StandbyIgnoresMarks(v, s, m, ds[..|ds| - 1]);
      assert ds[|ds| - 1] <= GapMin;
    }
  }

  // ---------------------------------------------------------------------------
  // Encoding and decoding agree

  /** A standard NEC transmission passes both checks and decodes to the
      address and command that were sent. */
  lemma NecRoundTrip(addr: u8, cmd: u8, ext: u8)
    ensures AddressOk(Standard, NecBits(addr, cmd)) && CommandOk(NecBits(addr, cmd))
    ensures Decode(Standard, NecBits(addr, cmd), ext) == IrData(addr, cmd, ext, false)
  {
    var w := NecBits(addr, cmd);
    var a := LsbBits(addr, 8);
    var c := LsbBits(cmd, 8);
    assert Byte(w, 0) == a && Byte(w, 1) == Not(a);
    assert Byte(w, 2) == c && Byte(w, 3) == Not(c);
    NotNot(a);
    NotNot(c);
    Pow2Widths();
    ValueOfLsbBits(addr, 8);
    ValueOfLsbBits(cmd, 8);
  }

  /** An NECx transmission passes the command check and decodes to the
      16-bit address and the command that were sent. */
  lemma NecxRoundTrip(addr: u16, cmd: u8, ext: u8)
    ensures CommandOk(NecxBits(addr, cmd))
    ensures Decode(Extended, NecxBits(addr, cmd), ext) == IrData(addr, cmd, ext, false)
  {
    var w := NecxBits(addr, cmd);
    var c := LsbBits(cmd, 8);
    assert Byte(w, 0) == LsbBits(addr % 0x100, 8);
    assert Byte(w, 1) == LsbBits(addr / 0x100, 8);
    assert Byte(w, 2) == c && Byte(w, 3) == Not(c);
    NotNot(c);
    Pow2Widths();
    ValueOfLsbBits(addr % 0x100, 8);
    ValueOfLsbBits(addr / 0x100, 8);
    ValueOfLsbBits(cmd, 8);
  }

  /** Conversely, every frame standard NEC accepts is the transmission of the
      address and command it decodes to: the checks admit nothing else. */
  lemma NecAcceptsOnlyTransmissions(w: Word32, ext: u8)
    requires AddressOk(Standard, w) && CommandOk(w)
    ensures var d := Decode(Standard, w, ext);
            d.addr < 0x100 && w == NecBits(d.addr, d.cmd)
  {
    var d := Decode(Standard, w, ext);
    var b0, b1, b2, b3 := Byte(w, 0), Byte(w, 1), Byte(w, 2), Byte(w, 3);
    LsbBitsAt(d.addr as nat, b0, 8);
    LsbBitsAt(d.cmd as nat, b2, 8);
    NotNot(b1);
    NotNot(b3);
    FourBytes(w, b0, b1, b2, b3);
  }

  /** Likewise every frame NECx accepts is the transmission of the 16-bit
      address and the command it decodes to. */
  lemma NecxAcceptsOnlyTransmissions(w: Word32, ext: u8)
    requires CommandOk(w)
    ensures var d := Decode(Extended, w, ext);
            w == NecxBits(d.addr, d.cmd)
  {
    var d := Decode(Extended, w, ext);
    var b0, b1, b2, b3 := Byte(w, 0), Byte(w, 1), Byte(w, 2), Byte(w, 3);
    LsbBitsAt(d.addr as nat % 0x100, b0, 8);
    LsbBitsAt(d.addr as nat / 0x100, b1, 8);
    LsbBitsAt(d.cmd as nat, b2, 8);
    NotNot(b3);
    FourBytes(w, b0, b1, b2, b3);
  }

  // ---------------------------------------------------------------------------
  // Repeat marks

  /** A gap followed by a repeat mark while a held key is possible: the
      first RptCount of them are only counted, later ones re-announce the
      previous command as held. The slot's address and command never change. */
  lemma RepeatSequence(v: Variant, s: State, m: Mailbox, gap: u32, rm: u32)
    requires s.phase == Standby && s.possiblyHeld
    requires GapMin < gap <= GapMax && IsRepeatMark(rm)
    ensures var r := Run(v, s, m, [gap, rm]);
            r.fsm.phase == Standby && r.fsm.possiblyHeld
            && r.fsm.repeatCount == (if s.repeatCount < RptCount then s.repeatCount + 1 else s.repeatCount)
            && r.mailbox == (if s.repeatCount < RptCount then m else MarkHeld(m))
  {
    RunPair(v, s, m, gap, rm);
  }

  /** A repeat mark that does not follow a decoded frame (or follows too
      long a gap) is ignored. */
  lemma RepeatWithoutFrameIgnored(v: Variant, s: State, m: Mailbox, gap: u32, rm: u32)
    requires s.phase == Standby
    requires !s.possiblyHeld || gap > GapMax
    requires GapMin < gap && IsRepeatMark(rm)
    ensures var r := Run(v, s, m, [gap, rm]);
            r.fsm.phase == Standby && r.mailbox == m && r.fsm.repeatCount == s.repeatCount
  {
    RunPair(v, s, m, gap, rm);
  }

  /** From the state a delivered frame leaves (see DecodeTransmission),
      three repeat sequences in a row: the first two produce nothing, the
      third re-announces the frame's command as held. */
  lemma {:induction false} ThirdRepeatReportsHeld(v: Variant, s: State, m: Mailbox, g1: u32, r1: u32, g2: u32, r2: u32, g3: u32, r3: u32)
    requires s.phase == Standby && s.possiblyHeld && s.repeatCount == 0
    requires GapMin < g1 <= GapMax && GapMin < g2 <= GapMax && GapMin < g3 <= GapMax
    requires IsRepeatMark(r1) && IsRepeatMark(r2) && IsRepeatMark(r3)
    ensures Run(v, s, m, [g1, r1]).mailbox == m
    ensures Run(v, s, m, [g1, r1, g2, r2]).mailbox == m
    ensures Run(v, s, m, [g1, r1, g2, r2, g3, r3]).mailbox == MarkHeld(m)
  {
    RepeatSequence(v, s, m, g1, r1);
    var p1 := Run(v, s, m, [g1, r1]);
    RepeatSequence(v, p1.fsm, p1.mailbox, g2, r2);
    RunAppend(v, s, m, [g1, r1], [g2, r2]);
    assert [g1, r1] + [g2, r2] == [g1, r1, g2, r2];
    var p2 := Run(v, s, m, [g1, r1, g2, r2]);
    RepeatSequence(v, p2.fsm, p2.mailbox, g3, r3);
    RunAppend(v, s, m, [g1, r1, g2, r2], [g3, r3]);
    assert [g1, r1, g2, r2] + [g3, r3] == [g1, r1, g2, r2, g3, r3];
  }
}
