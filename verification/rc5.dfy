/** The RC5 and RC5-extended edge handler (`irISR` of src/IRsmallD_RC5.h).

    Manchester (bi-phase) coding: the handler runs on every level change.
    A short interval is half a bit period, a long one a whole period. The
    handler is "in sync" at the middle of a bit, where the level change
    carries the bit (a rise is a 1, a fall a 0), and "off sync" at a bit
    boundary. A bit is pushed on the first edge after its middle; the 14th
    bit is pushed as soon as its middle is reached, and the frame is decoded
    on the same edge. The source reaches the choice and decode pseudo-states
    by jumps within one edge; here each pseudo-state is a function that only
    calls the ones after it (state, then choice, then decode), so one edge
    is processed by at most three nested calls.
 */
module Rc5 {
  import opened Bits
  import opened Mailbox

  // Thresholds in µs, the truncated values of the source's expressions.
  const RptPeriodMax: u32 := 136550
  const GapMin: u32 := 71120
  const ShortMin: u32 := 445
  const ShortMax: u32 := 1333
  const LongMax: u32 := 2222

  /** Held-key repetitions ignored before a held key is reported. */
  const RptCount: u8 := 2

  /** Half a bit period (about 889 µs). */
  predicate IsShort(d: u32) { ShortMin <= d <= ShortMax }

  /** A whole bit period (about 1778 µs). */
  predicate IsLong(d: u32) { ShortMax < d <= LongMax }

  datatype Phase = Standby | RoseInSync | RoseOffSync | FellInSync | FellOffSync

  predicate InSync(p: Phase) { p == RoseInSync || p == FellInSync }
  predicate OffSync(p: Phase) { p == RoseOffSync || p == FellOffSync }

  /** The handler's static variables. `signal` is the 16-bit code register;
      each pushed bit enters at bit 0. */
  datatype State = State(phase: Phase, bitCount: u8, signal: u16, prevToggle: bool, repeatCount: u8, lastBitTime: u32)

  function Init(): (s: State)
    ensures s.phase == Standby && s.repeatCount == 0 && !s.prevToggle
    ensures Valid(s)
  {
    State(Standby, 0, 0, false, 0, 0)
  }

  /** Between edges: at a bit middle at most 12 bits have been pushed, at a
      boundary between 1 and 13, and the register holds no more bits than that. */
  predicate Valid(s: State)
  {
    (InSync(s.phase) ==> s.bitCount <= 12 && s.signal < Pow2(s.bitCount))
    && (OffSync(s.phase) ==> 1 <= s.bitCount <= 13 && s.signal < Pow2(s.bitCount))
  }

  // ---------------------------------------------------------------------------
  // The 14-bit code: S F T A4..A0 C5..C0, from bit 13 down to bit 0

  function Toggle(code: u16): bool { (code / 0x800) % 2 == 1 }

  /** Address bits 10..6 and command bits 5..0, with the field bit (bit 12)
      inverted into command bit 6 as RC5-extended prescribes. */
  function Decode(code: u16, ext: u8): (r: IrData)
    ensures r.addr < 0x20 && r.cmd < 0x80 && !r.keyHeld && r.ext == ext
  {
    IrData((code / 0x40) % 0x20, code % 0x40 + (if (code / 0x1000) % 2 == 1 then 0 else 0x40), ext, false)
  }

  /** The code a remote sends for a toggle value, a 5-bit address and a
      7-bit command: start bit, field bit (the complement of command bit 6),
      toggle, address, low six command bits. */
  function Encode(toggle: bool, addr: nat, cmd: nat): (code: u16)
    requires addr < 0x20 && cmd < 0x80
  {
    0x2000 + (if cmd < 0x40 then 0x1000 else 0) + (if toggle then 0x800 else 0) + addr * 0x40 + cmd % 0x40
  }

  /** Reading the five fields back out of a packed 14-bit code. */
  lemma CodeFields(s: nat, f: nat, t: nat, a: nat, c: nat)
    requires s < 2 && f < 2 && t < 2 && a < 0x20 && c < 0x40
    ensures var code := s * 0x2000 + f * 0x1000 + t * 0x800 + a * 0x40 + c;
            code / 0x2000 == s && (code / 0x1000) % 2 == f && (code / 0x800) % 2 == t
            && (code / 0x40) % 0x20 == a && code % 0x40 == c
  {
  }

  /** Every code below 0x4000 is the packing of its five fields. */
  lemma CodeDigits(code: nat)
    requires code < 0x4000
    ensures code == (code / 0x2000) * 0x2000 + ((code / 0x1000) % 2) * 0x1000 + ((code / 0x800) % 2) * 0x800
                    + ((code / 0x40) % 0x20) * 0x40 + code % 0x40
  {
    var hi := code / 0x800;
    assert code == hi * 0x800 + code % 0x800;
    LowDigits(code % 0x800, code);
    HighDigits(hi, code);
  }

  /** The low eleven bits split into the address and command fields. */
  lemma LowDigits(lo: nat, code: nat)
    requires lo == code % 0x800
    ensures lo == ((code / 0x40) % 0x20) * 0x40 + code % 0x40
  {
    assert code == (code / 0x40) * 0x40 + code % 0x40;
  }

  /** The top three bits of a 14-bit code are the start, field and toggle bits. */
  lemma HighDigits(hi: nat, code: nat)
    requires hi == code / 0x800 && code < 0x4000
    ensures hi == (code / 0x2000) * 4 + ((code / 0x1000) % 2) * 2 + hi % 2
  {
    assert hi < 8;
    if hi == 0 {} else if hi == 1 {} else if hi == 2 {} else if hi == 3 {}
    else if hi == 4 {} else if hi == 5 {} else if hi == 6 {} else {}
  }

  lemma EncodeDecode(toggle: bool, addr: nat, cmd: nat, ext: u8)
    requires addr < 0x20 && cmd < 0x80
    ensures 0x2000 <= Encode(toggle, addr, cmd) < 0x4000
    ensures Toggle(Encode(toggle, addr, cmd)) == toggle
    ensures Decode(Encode(toggle, addr, cmd), ext) == IrData(addr, cmd, ext, false)
  {
    var f := if cmd < 0x40 then 1 else 0;
    var t := if toggle then 1 else 0;
    assert Encode(toggle, addr, cmd) == 0x2000 + f * 0x1000 + t * 0x800 + addr * 0x40 + cmd % 0x40;
    CodeFields(1, f, t, addr, cmd % 0x40);
  }

  /** Every code with its start bit set is the encoding of what it decodes to. */
  lemma DecodeEncode(code: u16, ext: u8)
    requires 0x2000 <= code < 0x4000
    ensures var d := Decode(code, ext); Encode(Toggle(code), d.addr, d.cmd) == code
  {
    CodeDigits(code as nat);
    var d := Decode(code, ext);
    assert code / 0x2000 == 1;
    assert d.cmd % 0x40 == code % 0x40 && (d.cmd < 0x40 <==> (code / 0x1000) % 2 == 1);
  }

  // ---------------------------------------------------------------------------
  // One edge

  /** The held-key case of the decode: the repetition period has not run
      out (measured modulo 2^32) and the toggle bit did not change. */
  predicate IsRepeat(s: State, code: u16, now: u32)
  {
    Sub32(now, s.lastBitTime) < RptPeriodMax && s.prevToggle == Toggle(code)
  }

  /** The outcome of decoding `code` at time `now`, for a handler whose
      held-key bookkeeping was `s` and a slot `m`. */
  predicate Decided(s: State, m: Mailbox, code: u16, now: u32, r: Stepped<State>)
  {
    r.fsm.phase == Standby
    && (m.copying ==> r.mailbox == m && r.fsm.prevToggle == s.prevToggle
                      && r.fsm.lastBitTime == s.lastBitTime && r.fsm.repeatCount == s.repeatCount)
    && (!m.copying ==> r.fsm.prevToggle == Toggle(code) && r.fsm.lastBitTime == now)
    && (!m.copying && IsRepeat(s, code, now) && s.repeatCount < RptCount ==>
          r.mailbox == m && r.fsm.repeatCount == s.repeatCount + 1)
    && (!m.copying && IsRepeat(s, code, now) && s.repeatCount >= RptCount ==>
          r.mailbox == MarkHeld(m) && r.fsm.repeatCount == s.repeatCount)
    && (!m.copying && !IsRepeat(s, code, now) ==>
          r.mailbox == Deliver(m, Decode(code, m.data.ext)) && r.fsm.repeatCount == 0)
  }

  /** The slot after any edge: untouched, re-announced as held, or given the decoded register. */
  predicate Written(m: Mailbox, r: Stepped<State>)
  {
    r.mailbox == m || r.mailbox == MarkHeld(m) || r.mailbox == Deliver(m, Decode(r.fsm.signal, m.data.ext))
  }

  /** Pseudo-state d: the register holds a complete code. Skipped entirely
      while the consumer is copying. */
  function DecodeFrame(s: State, m: Mailbox, now: u32): (r: Stepped<State>)
    ensures Decided(s, m, s.signal, now, r)
    ensures r.fsm.bitCount == s.bitCount && r.fsm.signal == s.signal
    ensures Written(m, r)
  {
    if m.copying then
      Stepped(s.(phase := Standby), m)
    else
      var t := Toggle(s.signal);
      if IsRepeat(s, s.signal, now) then
        if s.repeatCount < RptCount then
          Stepped(s.(phase := Standby, repeatCount := s.repeatCount + 1, prevToggle := t, lastBitTime := now), m)
        else
          Stepped(s.(phase := Standby, prevToggle := t, lastBitTime := now), MarkHeld(m))
      else
        Stepped(s.(phase := Standby, repeatCount := 0, prevToggle := t, lastBitTime := now),
                Deliver(m, Decode(s.signal, m.data.ext)))
  }

  /** What the choice pseudo-states find: between 1 and 13 bits pushed. */
  predicate Pushed(s: State)
  {
    1 <= s.bitCount <= 13 && s.signal < Pow2(s.bitCount)
  }

  /** Pseudo-states r and f, reached at the middle of a bit after a rise
      (`rose`) or a fall: the level change there carries a 0 after a rise
      and a 1 after a fall. With 13 bits pushed that bit is the last one:
      it is pushed and the frame decoded. Otherwise the handler waits at the
      middle of that bit. Only DecodeFrame is reachable from here, so the
      jumps within one edge cannot cycle. */
  function Choice(rose: bool, s: State, m: Mailbox, now: u32): (r: Stepped<State>)
    ensures r.fsm.phase == Standby || (r.fsm.phase == PhaseOf(!rose) && r.mailbox == m)
    ensures Pushed(s) ==> Valid(r.fsm)
    ensures Written(m, r)
    ensures m.copying ==> r.mailbox == m && r.fsm.prevToggle == s.prevToggle
                          && r.fsm.lastBitTime == s.lastBitTime && r.fsm.repeatCount == s.repeatCount
  {
    if s.bitCount == 13 then DecodeFrame(s.(signal := Shl16(s.signal, !rose)), m, now)
    else Stepped(s.(phase := PhaseOf(!rose)), m)
  }

  /** The handler at a bit middle (a 1 after a rise, a 0 after a fall): the
      bit is pushed, then the interval decides where the next edge is. */
  function FromMiddle(rose: bool, s: State, m: Mailbox, d: u32, now: u32): (r: Stepped<State>)
    ensures s.bitCount <= 12 && s.signal < Pow2(s.bitCount) ==> Valid(r.fsm)
    ensures Written(m, r)
    ensures m.copying ==> r.mailbox == m && r.fsm.prevToggle == s.prevToggle
                          && r.fsm.lastBitTime == s.lastBitTime && r.fsm.repeatCount == s.repeatCount
    ensures !(ShortMin <= d <= LongMax) ==> r.fsm.phase == Standby && r.mailbox == m
  {
    PushKeepsBound(s, rose);
    var s1 := s.(bitCount := Inc8(s.bitCount), signal := Shl16(s.signal, rose));
    if d < ShortMin || d > LongMax then Stepped(s1.(phase := Standby), m)
    else if d <= ShortMax then Stepped(s1.(phase := if rose then FellOffSync else RoseOffSync), m)
    else Choice(rose, s1, m, now)
  }

  /** Pushing a bit onto at most 12 bits stays within the bit count. */
  lemma PushKeepsBound(s: State, b: bool)
    ensures s.bitCount <= 12 && s.signal < Pow2(s.bitCount)
            ==> Pushed(s.(bitCount := Inc8(s.bitCount), signal := Shl16(s.signal, b)))
  {
    if s.bitCount <= 12 && s.signal < Pow2(s.bitCount) {
      Pow2Widths();
      Pow2Monotone(s.bitCount as nat, 12);
    }
  }

  /** The handler at a bit boundary: only a half period, which reaches the
      next bit middle, is accepted. */
  function FromBoundary(rose: bool, s: State, m: Mailbox, d: u32, now: u32): (r: Stepped<State>)
    ensures Pushed(s) ==> Valid(r.fsm)
    ensures Written(m, r)
    ensures m.copying ==> r.mailbox == m && r.fsm.prevToggle == s.prevToggle
                          && r.fsm.lastBitTime == s.lastBitTime && r.fsm.repeatCount == s.repeatCount
    ensures !IsShort(d) ==> r.fsm.phase == Standby && r.mailbox == m
  {
    if !IsShort(d) then Stepped(s.(phase := Standby), m)
    else Choice(rose, s, m, now)
  }

  /** One edge of duration `e.duration` at time `e.time`. */
  function Step(s: State, m: Mailbox, e: Edge): (r: Stepped<State>)
    ensures r.mailbox.copying == m.copying
    ensures m.copying ==> r.mailbox == m
    ensures m.copying ==> r.fsm.prevToggle == s.prevToggle && r.fsm.lastBitTime == s.lastBitTime
                          && r.fsm.repeatCount == s.repeatCount
    ensures Valid(s) ==> Valid(r.fsm)
    ensures e.duration < ShortMin ==> r.fsm.phase == Standby
    ensures Written(m, r)
  {
    var d := e.duration;
    match s.phase
    case Standby =>
      if d >= GapMin then Stepped(s.(phase := RoseInSync, bitCount := 0, signal := 0), m)
      else Stepped(s, m)
    case RoseInSync => FromMiddle(true, s, m, d, e.time)
    case FellInSync => FromMiddle(false, s, m, d, e.time)
    case RoseOffSync => FromBoundary(true, s, m, d, e.time)
    case FellOffSync => FromBoundary(false, s, m, d, e.time)
  }

  /** The handler run over a sequence of edges, oldest first. */
  function Run(s: State, m: Mailbox, es: seq<Edge>): (r: Stepped<State>)
    ensures r.mailbox.copying == m.copying
    ensures m.copying ==> r.mailbox == m
    ensures Valid(s) ==> Valid(r.fsm)
    decreases |es|
  {
    if |es| == 0 then Stepped(s, m)
    else
      var p := Run(s, m, es[..|es| - 1]);
      Step(p.fsm, p.mailbox, es[|es| - 1])
  }

  lemma {:induction false} RunAppend(s: State, m: Mailbox, a: seq<Edge>, b: seq<Edge>)
    ensures var p := Run(s, m, a);
            Run(s, m, a + b) == Run(p.fsm, p.mailbox, b)
    decreases |b|
  {
    if |b| > 0 {
      RunAppend(s, m, a, b[..|b| - 1]);
      assert (a + b)[..|a + b| - 1] == a + b[..|b| - 1];
      assert (a + b)[|a + b| - 1] == b[|b| - 1];
    } else {
      assert a + b == a;
    }
  }

  lemma RunOne(s: State, m: Mailbox, e: Edge)
    ensures Run(s, m, [e]) == Step(s, m, e)
  {
    assert [e][..0] == [];
  }

  lemma RunPair(s: State, m: Mailbox, e1: Edge, e2: Edge)
    ensures var p := Step(s, m, e1);
            Run(s, m, [e1, e2]) == Step(p.fsm, p.mailbox, e2)
  {
    assert [e1, e2][..1] == [e1];
    RunOne(s, m, e1);
  }

  // ---------------------------------------------------------------------------
  // Window facts

  /** A short and a long interval cannot be confused, and nothing shorter
      than a half period is accepted anywhere. */
  lemma WindowsDisjoint(d: u32)
    ensures !(IsShort(d) && IsLong(d))
    ensures IsShort(d) || IsLong(d) <==> ShortMin <= d <= LongMax
    ensures IsShort(d) || IsLong(d) ==> d < GapMin
  {
  }

  /** Bad intervals: from a bit middle anything outside both windows, from a
      bit boundary anything but a half period, returns to standby and writes nothing. */
  lemma BadIntervalAborts(s: State, m: Mailbox, e: Edge)
    requires (InSync(s.phase) && !(ShortMin <= e.duration <= LongMax))
             || (OffSync(s.phase) && !IsShort(e.duration))
    ensures Step(s, m, e).fsm.phase == Standby
    ensures Step(s, m, e).mailbox == m
  {
  }

  // ---------------------------------------------------------------------------
  // The intervals a transmitter produces

  /** The state the gap leaves behind: the middle of the first start bit. */
  predicate AtFirstBit(s: State)
  {
    s.phase == RoseInSync && s.bitCount == 0 && s.signal == 0
  }

  function PhaseOf(b: bool): Phase { if b then RoseInSync else FellInSync }

  /** `es` are the intervals between the middles of consecutive bits of
      `bits`: two half periods when a bit repeats the previous one, one whole
      period when it differs. */
  predicate Manchester(es: seq<Edge>, bits: seq<bool>)
    decreases |bits|
  {
    if |bits| <= 1 then es == []
    else
      var n := |bits|;
      var k := |es|;
      if bits[n - 1] == bits[n - 2] then
        k >= 2 && IsShort(es[k - 2].duration) && IsShort(es[k - 1].duration)
        && Manchester(es[..k - 2], bits[..n - 1])
      else
        k >= 1 && IsLong(es[k - 1].duration) && Manchester(es[..k - 1], bits[..n - 1])
  }

  /** The edge after the gap: the handler is at the first start bit. */
  lemma GapStartsFrame(s: State, m: Mailbox, e: Edge)
    requires s.phase == Standby && e.duration >= GapMin
    ensures Step(s, m, e) == Stepped(s.(phase := RoseInSync, bitCount := 0, signal := 0), m)
  {
  }

  /** The last bit's intervals split off a Manchester run. */
  lemma ManchesterSplit(es: seq<Edge>, bits: seq<bool>) returns (head: seq<Edge>, tail: seq<Edge>)
    requires |bits| >= 2 && Manchester(es, bits)
    ensures head + tail == es && Manchester(head, bits[..|bits| - 1])
    ensures Link(tail, bits[|bits| - 2], bits[|bits| - 1])
  {
    var k := |es|;
    if bits[|bits| - 1] == bits[|bits| - 2] {
      head, tail := es[..k - 2], es[k - 2..];
    } else {
      head, tail := es[..k - 1], es[k - 1..];
    }
    assert head + tail == es;
  }

  /** The intervals from the middle of bit b to the middle of the next bit c. */
  predicate Link(tail: seq<Edge>, b: bool, c: bool)
  {
    if b == c then |tail| == 2 && IsShort(tail[0].duration) && IsShort(tail[1].duration)
    else |tail| == 1 && IsLong(tail[0].duration)
  }

  /** From the middle of bit b to the middle of the next bit c: b is pushed. */
  lemma Advance(s: State, m: Mailbox, tail: seq<Edge>, b: bool, c: bool)
    requires s.phase == PhaseOf(b) && s.bitCount <= 11 && Link(tail, b, c)
    ensures Run(s, m, tail) == Stepped(s.(phase := PhaseOf(c), bitCount := s.bitCount + 1, signal := Shl16(s.signal, b)), m)
  {
    if b == c {
      assert tail == [tail[0], tail[1]];
      RunPair(s, m, tail[0], tail[1]);
    } else {
      assert tail == [tail[0]];
      RunOne(s, m, tail[0]);
    }
  }

  /** From the middle of bit 12 to the middle of bit 13: both are pushed and
      the frame is decoded at the time of the last edge. */
  lemma Finish(s: State, m: Mailbox, tail: seq<Edge>, b: bool, c: bool)
    requires s.phase == PhaseOf(b) && s.bitCount == 12 && Link(tail, b, c)
    ensures var r := Run(s, m, tail);
            var code := Shl16(Shl16(s.signal, b), c);
            r.fsm.signal == code && Decided(s, m, code, tail[|tail| - 1].time, r)
  {
    if b == c {
      assert tail == [tail[0], tail[1]];
      RunPair(s, m, tail[0], tail[1]);
    } else {
      assert tail == [tail[0]];
      RunOne(s, m, tail[0]);
    }
  }

  /** After the intervals of the first n bits (n <= 13), the handler is at
      the middle of bit n-1 with bits 0..n-2 in the register, most
      significant first. Nothing is written to the slot. */
  lemma {:induction false} ReceiveBits(s: State, m: Mailbox, es: seq<Edge>, bits: seq<bool>)
    requires AtFirstBit(s)
    requires 1 <= |bits| <= 13 && bits[0] && Manchester(es, bits)
    ensures Run(s, m, es) == Stepped(s.(phase := PhaseOf(bits[|bits| - 1]), bitCount := |bits| - 1,
                                        signal := MsbCode(bits[..|bits| - 1])), m)
    decreases |bits|
  {
    var n := |bits|;
    if n == 1 {
      assert es == [];
      assert bits[..0] == [];
    } else {
      var head, tail := ManchesterSplit(es, bits);
      var front := bits[..n - 1];
      assert front[0] && front[n - 2] == bits[n - 2];
      ReceiveBits(s, m, head, front);
      Extend(s, m, head, tail, bits);
    }
  }

  /** One more bit on top of ReceiveBits' conclusion for all bits but the last. */
  lemma Extend(s: State, m: Mailbox, head: seq<Edge>, tail: seq<Edge>, bits: seq<bool>)
    requires 2 <= |bits| <= 13
    requires var front := bits[..|bits| - 1];
             Run(s, m, head) == Stepped(s.(phase := PhaseOf(bits[|bits| - 2]), bitCount := |bits| - 2,
                                           signal := MsbCode(front[..|bits| - 2])), m)
    requires Link(tail, bits[|bits| - 2], bits[|bits| - 1])
    ensures Run(s, m, head + tail) == Stepped(s.(phase := PhaseOf(bits[|bits| - 1]), bitCount := |bits| - 1,
                                                 signal := MsbCode(bits[..|bits| - 1])), m)
  {
    var front := bits[..|bits| - 1];
    var p := Run(s, m, head);
    Advance(p.fsm, m, tail, bits[|bits| - 2], bits[|bits| - 1]);
    RunAppend(s, m, head, tail);
    PushMsbCode(front);
  }

  /** Pushing the last of a few bits onto the code of the ones before it. */
  lemma PushMsbCode(front: seq<bool>)
    requires 1 <= |front| <= 13
    ensures MsbCode(front) == Shl16(MsbCode(front[..|front| - 1]), front[|front| - 1])
  {
    MsbPrefixBound(front, |front| - 1);
  }

  /** The first j bits of a frame fit below bit 12, so the next shift loses nothing. */
  lemma MsbPrefixBound(bits: seq<bool>, j: nat)
    requires j <= 12 && j <= |bits|
    ensures MsbValue(bits[..j]) < 0x1000
  {
    Pow2Monotone(j, 12);
    Pow2Widths();
  }

  /** A whole frame: after the gap, the intervals of 14 bits whose first
      (start) bit is 1. The register then holds the 14 bits, most significant
      first, and the frame has been decoded against the held-key bookkeeping
      the handler had before the frame. */
  lemma {:induction false} ReceiveFrame(s: State, m: Mailbox, gap: Edge, es: seq<Edge>, bits: seq<bool>)
    requires s.phase == Standby && gap.duration >= GapMin
    requires |bits| == 14 && bits[0] && Manchester(es, bits)
    ensures var r := Run(s, m, [gap] + es);
            |es| > 0 && r.fsm.signal == MsbCode(bits) && 0x2000 <= r.fsm.signal < 0x4000
            && Decided(s, m, MsbCode(bits), es[|es| - 1].time, r)
  {
    var head, tail := ManchesterSplit(es, bits);
    var front := bits[..13];
    assert front[0] && front[12] == bits[12];
    assert front[..12] == bits[..12];
    GapStartsFrame(s, m, gap);
    RunOne(s, m, gap);
    var s0 := s.(phase := RoseInSync, bitCount := 0, signal := 0);
    ReceiveBits(s0, m, head, front);
    var p := Run(s0, m, head);
    Finish(p.fsm, m, tail, bits[12], bits[13]);
    RunAppend(s0, m, head, tail);
    RunAppend(s, m, [gap], es);
    LastTwoBits(bits);
    assert es[|es| - 1] == tail[|tail| - 1];
  }

  /** The code of a frame is its first twelve bits with the last two pushed on. */
  lemma LastTwoBits(bits: seq<bool>)
    requires |bits| == 14 && bits[0]
    ensures MsbCode(bits) == Shl16(Shl16(MsbCode(bits[..12]), bits[12]), bits[13])
    ensures 0x2000 <= MsbCode(bits) < 0x4000
  {
    PushMsbCode(bits[..13]);
    assert bits[..13][..12] == bits[..12];
    assert bits[..14] == bits;
    MsbStartBit(bits);
  }

  /** A 14-bit frame with its start bit set denotes a code in [0x2000, 0x4000). */
  lemma {:induction false} MsbStartBit(bits: seq<bool>)
    requires |bits| == 14 && bits[0]
    ensures 0x2000 <= MsbValue(bits) < 0x4000
  {
    Pow2Widths();
    MsbLeading(bits, 14);
  }

  /** A leading 1 makes an n-bit value at least 2^(n-1). */
  lemma {:induction false} MsbLeading(bits: seq<bool>, n: nat)
    requires 1 <= n == |bits| && bits[0]
    ensures MsbValue(bits) >= Pow2(n - 1)
    decreases n
  {
    if n > 1 {
      assert bits[..n - 1][0];
      MsbLeading(bits[..n - 1], n - 1);
    }
  }

  /** A transmitted code reaches the slot: sending the code of (toggle, addr,
      cmd) outside a held-key repetition delivers exactly that address and command. */
  lemma {:induction false} TransmissionDelivers(s: State, m: Mailbox, gap: Edge, es: seq<Edge>, toggle: bool, addr: nat, cmd: nat)
    requires addr < 0x20 && cmd < 0x80 && !m.copying
    requires s.phase == Standby && gap.duration >= GapMin
    requires Manchester(es, MsbBits(Encode(toggle, addr, cmd), 14))
    requires |es| > 0 && !IsRepeat(s, Encode(toggle, addr, cmd), es[|es| - 1].time)
    ensures var r := Run(s, m, [gap] + es);
            r.mailbox == Mailbox(IrData(addr, cmd, m.data.ext, false), true, false)
            && r.fsm.prevToggle == toggle && r.fsm.repeatCount == 0 && r.fsm.phase == Standby
  {
    var code := Encode(toggle, addr, cmd);
    var bits := MsbBits(code, 14);
    EncodeDecode(toggle, addr, cmd, m.data.ext);
    Pow2Widths();
    MsbValueOfBits(code, 14);
    MsbBitsOfValue(bits);
    assert bits[0] by {
      MsbTopBit(code);
    }
    ReceiveFrame(s, m, gap, es, bits);
  }

  /** Bit 13 of a code in [0x2000, 0x4000) is the first bit sent. */
  lemma MsbTopBit(code: u16)
    requires 0x2000 <= code < 0x4000
    ensures MsbBits(code, 14)[0]
  {
    var bits := MsbBits(code, 14);
    Pow2Widths();
    MsbValueOfBits(code, 14);
    if !bits[0] {
      MsbNotLeading(bits, 14);
    }
  }

  /** A leading 0 keeps an n-bit value below 2^(n-1). */
  lemma {:induction false} MsbNotLeading(bits: seq<bool>, n: nat)
    requires 1 <= n == |bits| && !bits[0]
    ensures MsbValue(bits) < Pow2(n - 1)
    decreases n
  {
    if n > 1 {
      assert !bits[..n - 1][0];
      MsbNotLeading(bits[..n - 1], n - 1);
    }
  }
}
