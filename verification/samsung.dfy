/** The SAMSUNG (20-bit) edge handler (`irISR` of src/IRsmallD_SAMSUNG.h).

    Pulse-distance coding on falling edges: a gap moves the handler out of
    standby, a leading mark starts a frame of 20 bit marks, least significant
    bit first: a 12-bit address, then an 8-bit command. One 8-bit register
    receives every bit; after the 8th bit it becomes the address's low byte,
    after the 12th it is shifted down by four and becomes the high byte, and
    the last eight bits are the command. A frame whose command equals the
    slot's, arriving after an ordinary gap, is a repeat of a held key.
 */
module Samsung {
  import opened Bits
  import opened Mailbox

  // Thresholds in µs.
  const GapMin: u32 := 2887
  const GapMax: u32 := 30488
  const LeadMarkMin: u32 := 8100
  const LeadMarkMax: u32 := 9900
  const Mark0Min: u32 := 413
  const Mark1Min: u32 := 1838
  const Mark1Max: u32 := 3262

  /** Repeated frames swallowed before a held key is reported. */
  const RptCount: u8 := 3

  predicate IsLeadingMark(d: u32) { LeadMarkMin <= d <= LeadMarkMax }
  predicate IsBitMark(d: u32) { Mark0Min <= d <= Mark1Max }

  /** The bit a bit mark carries: a long mark is a 1. */
  function BitOf(d: u32): bool { d >= Mark1Min }

  datatype Phase = Standby | StartPulse | Receiving

  /** The handler's static variables: `cmd` is the 8-bit register
      `signal_Cmd`, `addr` the 16-bit `signal_Addr16`. */
  datatype State = State(phase: Phase, bitCount: u8, cmd: Word8, addr: Word16, repeatCount: u8, possiblyHeld: bool)

  function Init(): (s: State)
    ensures s.phase == Standby && !s.possiblyHeld && s.repeatCount == 0
    ensures Valid(s)
  {
    State(Standby, 0, Zeros(8), Zeros(16), 0, false)
  }

  /** While receiving, fewer than 20 bits have arrived. */
  predicate Valid(s: State)
  {
    s.phase == Receiving ==> s.bitCount < 20
  }

  // ---------------------------------------------------------------------------
  // One edge

  /** The 20th bit: a frame whose command equals the slot's, while a held key
      is possible, is a repeat; any other frame is a fresh command, written
      unless the consumer is copying. Either way the handler returns to standby. */
  function Finish(s: State, m: Mailbox): (r: Stepped<State>)
    ensures r.fsm.phase == Standby && r.mailbox.copying == m.copying
    ensures s.possiblyHeld && Value(s.cmd) == m.data.cmd ==>
              r.mailbox == (if s.repeatCount < RptCount then m else MarkHeld(m))
              && r.fsm.possiblyHeld
              && r.fsm.repeatCount == (if s.repeatCount < RptCount then s.repeatCount + 1 else s.repeatCount)
    ensures !(s.possiblyHeld && Value(s.cmd) == m.data.cmd) ==>
              r.mailbox == Deliver(m, IrData(WordValue(s.addr), ByteValue(s.cmd), m.data.ext, false))
              && (!m.copying ==> r.fsm.possiblyHeld && r.fsm.repeatCount == 0)
  {
    if s.possiblyHeld && ByteValue(s.cmd) == m.data.cmd then
      if s.repeatCount < RptCount then
        Stepped(s.(phase := Standby, repeatCount := s.repeatCount + 1), m)
      else
        Stepped(s.(phase := Standby), MarkHeld(m))
    else if !m.copying then
      Stepped(s.(phase := Standby, possiblyHeld := true, repeatCount := 0),
              Deliver(m, IrData(WordValue(s.addr), ByteValue(s.cmd), m.data.ext, false)))
    else
      Stepped(s.(phase := Standby), m)
  }

  /** One edge: `d` is the time since the previous edge, `m` the shared slot. */
  function Step(s: State, m: Mailbox, d: u32): (r: Stepped<State>)
    ensures r.mailbox.copying == m.copying
    ensures m.copying ==> r.mailbox == m
    ensures d < Mark0Min ==> r.fsm.phase == Standby
    ensures Valid(s) ==> Valid(r.fsm)
    ensures r.mailbox != m ==> r.fsm.phase == Standby && s.phase == Receiving && s.bitCount == 19
  {
    match s.phase
    case Standby =>
      if d > GapMin then
        Stepped(s.(phase := StartPulse, possiblyHeld := s.possiblyHeld && d <= GapMax), m)
      else
        Stepped(s.(possiblyHeld := false), m)
    case StartPulse =>
      if IsLeadingMark(d) then Stepped(s.(phase := Receiving, bitCount := 0), m)
      else Stepped(s.(phase := Standby), m)
    case Receiving =>
      if !IsBitMark(d) then Stepped(s.(phase := Standby), m)
      else
        var w := PushMsb(s.cmd, BitOf(d));
        var c := Inc8(s.bitCount);
        if c == 8 then
          Stepped(s.(bitCount := c, cmd := w, addr := w + Zeros(8)), m)
        else if c == 12 then
          var h := Shr(w, 4);
          Stepped(s.(bitCount := c, cmd := h, addr := Or(s.addr, Zeros(8) + h)), m)
        else if c == 20 then
          Finish(s.(bitCount := c, cmd := w), m)
        else
          Stepped(s.(bitCount := c, cmd := w), m)
  }

  /** The handler run over a sequence of edges, oldest first. */
  function Run(s: State, m: Mailbox, ds: seq<u32>): (r: Stepped<State>)
    ensures r.mailbox.copying == m.copying
    ensures m.copying ==> r.mailbox == m
    ensures Valid(s) ==> Valid(r.fsm)
    decreases |ds|
  {
    if |ds| == 0 then Stepped(s, m)
    else
      var p := Run(s, m, ds[..|ds| - 1]);
      Step(p.fsm, p.mailbox, ds[|ds| - 1])
  }

  lemma {:induction false} RunAppend(s: State, m: Mailbox, a: seq<u32>, b: seq<u32>)
    ensures var p := Run(s, m, a);
            Run(s, m, a + b) == Run(p.fsm, p.mailbox, b)
    decreases |b|
  {
    if |b| > 0 {
      RunAppend(s, m, a, b[..|b| - 1]);
      assert (a + b)[..|a + b| - 1] == a + b[..|b| - 1];
      assert (a + b)[|a + b| - 1] == b[|b| - 1];
    } else {
      assert a + b == a;
    }
  }

  lemma RunPair(s: State, m: Mailbox, d1: u32, d2: u32)
    ensures var p := Step(s, m, d1);
            Run(s, m, [d1, d2]) == Step(p.fsm, p.mailbox, d2)
  {
    assert [d1, d2][..1] == [d1];
    assert [d1][..0] == [];
    assert Run(s, m, [d1]) == Step(s, m, d1);
  }

  // ---------------------------------------------------------------------------
  // Frames as a remote sends them

  /** `ds` is a run of bit marks carrying `bits`, one mark per bit. */
  predicate Carries(ds: seq<u32>, bits: seq<bool>)
  {
    |ds| == |bits| && forall i :: 0 <= i < |ds| ==> IsBitMark(ds[i]) && BitOf(ds[i]) == bits[i]
  }

  lemma CarriesPrefix(ds: seq<u32>, bits: seq<bool>, j: nat)
    requires Carries(ds, bits) && j < |ds|
    ensures Carries(ds[..j], bits[..j])
    ensures IsBitMark(ds[j]) && BitOf(ds[j]) == bits[j]
  {
    forall i | 0 <= i < j
      ensures IsBitMark(ds[..j][i]) && BitOf(ds[..j][i]) == bits[..j][i]
    {
      assert ds[..j][i] == ds[i];
    }
  }

  /** The 20 bits a remote sends: the 12-bit address, then the command, each
      least significant bit first. */
  function Encode(addr: nat, cmd: nat): (f: seq<bool>)
    ensures |f| == 20
  {
    LsbBits(addr, 12) + LsbBits(cmd, 8)
  }

  /** The command a 20-bit frame announces, read straight from its bits. */
  function Decode(f: seq<bool>, ext: u8): (r: IrData)
    requires |f| == 20
    ensures r.addr < 0x1000 && !r.keyHeld && r.ext == ext
  {
    Pow2Widths();
    IrData(WordValue(f[..12]), ByteValue(f[12..20]), ext, false)
  }

  /** Address and command within their widths survive encoding and decoding. */
  lemma RoundTrip(addr: nat, cmd: nat, ext: u8)
    requires addr < 0x1000 && cmd < 0x100
    ensures Decode(Encode(addr, cmd), ext) == IrData(addr, cmd, ext, false)
  {
    Pow2Widths();
    var f := Encode(addr, cmd);
    assert f[..12] == LsbBits(addr, 12);
    assert f[12..20] == LsbBits(cmd, 8);
    ValueOfLsbBits(addr, 12);
    ValueOfLsbBits(cmd, 8);
  }

  /** Conversely, every frame is the encoding of what it decodes to. */
  lemma EncodeOfDecode(f: seq<bool>, ext: u8)
    requires |f| == 20
    ensures var d := Decode(f, ext);
            f == Encode(d.addr, d.cmd)
  {
    var d := Decode(f, ext);
    assert f[12..20] == f[12..];
    JoinValues(f, 12, d.addr as nat, d.cmd as nat);
  }

  // ---------------------------------------------------------------------------
  // Receiving a frame

  /** The command register after k of the frame's bits `f`, starting from
      `prev`: the last eight bits pushed, except that the shift by four at the
      12th bit leaves zeros between the address's top nibble and the command. */
  function CmdAfter(prev: Word8, f: seq<bool>, k: nat): (w: Word8)
    requires k <= |f| == 20
  {
    if k < 12 then (prev + f[..k])[k..]
    else var t := f[8..12] + Zeros(4) + f[12..k]; assert |t| == k - 4; t[k - 12..]
  }

  /** The address register after k bits: untouched before the 8th, then the
      low byte, then all twelve address bits from the 12th on. */
  function AddrAfter(prev: Word16, f: seq<bool>, k: nat): (w: Word16)
    requires k <= |f| == 20
  {
    if k < 8 then prev else if k < 12 then f[..8] + Zeros(8) else f[..12] + Zeros(4)
  }

  /** The state after k bits of `f` from the leading mark. */
  function After(s: State, f: seq<bool>, k: nat): (r: State)
    requires k <= |f| == 20
  {
    s.(bitCount := k as u8, cmd := CmdAfter(s.cmd, f, k), addr := AddrAfter(s.addr, f, k))
  }

  /** Pushing a bit into the register holding the suffix of x from j. */
  lemma Slide(x: seq<bool>, j: nat, b: bool)
    requires j < |x|
    ensures PushMsb(x[j..], b) == (x + [b])[j + 1..]
  {
  }

  /** One bit mark inside the frame, before the last: the registers move
      from their contents after k bits to their contents after k + 1. */
  lemma ReceiveOne(s: State, m: Mailbox, f: seq<bool>, k: nat, d: u32)
    requires s.phase == Receiving && s.bitCount == 0
    requires k < 19 && |f| == 20 && IsBitMark(d) && BitOf(d) == f[k]
    ensures Step(After(s, f, k), m, d) == Stepped(After(s, f, k + 1), m)
  {
    var w := PushMsb(CmdAfter(s.cmd, f, k), f[k]);
    if k < 11 {
      Slide(s.cmd + f[..k], k, f[k]);
      assert s.cmd + f[..k] + [f[k]] == s.cmd + f[..k + 1];
      if k == 7 {
        assert w == f[..8];
      }
    } else if k == 11 {
      Slide(s.cmd + f[..11], 11, f[11]);
      assert s.cmd + f[..11] + [f[11]] == s.cmd + f[..12];
      assert w == f[4..12];
      assert Shr(w, 4) == f[8..12] + Zeros(4);
      assert (f[8..12] + Zeros(4) + f[12..12])[0..] == f[8..12] + Zeros(4);
      var a := Or(f[..8] + Zeros(8), Zeros(8) + Shr(w, 4));
      assert forall i | 0 <= i < 16 :: a[i] == (f[..12] + Zeros(4))[i];
      assert a == AddrAfter(s.cmd + Zeros(8), f, 12);
      assert Shr(w, 4) == CmdAfter(s.cmd, f, 12);
    } else {
      var x := f[8..12] + Zeros(4) + f[12..k];
      Slide(x, k - 12, f[k]);
      assert f[12..k + 1] == f[12..k] + [f[k]];
      assert x + [f[k]] == f[8..12] + Zeros(4) + f[12..k + 1];
    }
  }

  /** k bit marks after a leading mark, k < 20: the registers hold what
      After describes and nothing is written. */
  lemma {:induction false} ReceivePrefix(s: State, m: Mailbox, ds: seq<u32>, f: seq<bool>)
    requires s.phase == Receiving && s.bitCount == 0
    requires |ds| < 20 && |f| == 20 && Carries(ds, f[..|ds|])
    ensures Run(s, m, ds) == Stepped(After(s, f, |ds|), m)
    decreases |ds|
  {
    var k := |ds|;
    if k == 0 {
      assert (s.cmd + f[..0])[0..] == s.cmd;
    } else {
      CarriesPrefix(ds, f[..k], k - 1);
      assert f[..k][..k - 1] == f[..k - 1];
      ReceivePrefix(s, m, ds[..k - 1], f);
      ReceiveOne(s, m, f, k - 1, ds[k - 1]);
    }
  }

  /** All 20 bit marks: the registers hold the command and the 12-bit
      address of the frame, whatever they held before, and the frame is judged. */
  lemma ReceiveFrame(s: State, m: Mailbox, ds: seq<u32>, f: seq<bool>)
    requires s.phase == Receiving && s.bitCount == 0
    requires |f| == 20 && Carries(ds, f)
    ensures Run(s, m, ds) == Finish(s.(bitCount := 20, cmd := f[12..20], addr := f[..12] + Zeros(4)), m)
  {
    CarriesPrefix(ds, f, 19);
    ReceivePrefix(s, m, ds[..19], f);
    assert ds == ds[..19] + [ds[19]];
    var x := f[8..12] + Zeros(4) + f[12..19];
    Slide(x, 7, f[19]);
    assert f[12..20] == f[12..19] + [f[19]];
    assert x + [f[19]] == f[8..12] + Zeros(4) + f[12..20];
    assert CmdAfter(s.cmd, f, 20) == f[12..20];
  }

  /** A whole transmission from standby: gap, leading mark, 20 bit marks.
      After an ordinary gap while a held key is possible, a frame with the
      slot's command is a repeat (counted, or re-announced once RptCount
      repeats have passed); any other frame delivers the command it carries. */
  lemma {:induction false} DecodeTransmission(s: State, m: Mailbox, gap: u32, lead: u32, ds: seq<u32>, f: seq<bool>)
    requires s.phase == Standby && gap > GapMin && IsLeadingMark(lead)
    requires |f| == 20 && Carries(ds, f)
    ensures var r := Run(s, m, [gap, lead] + ds);
            var held := s.possiblyHeld && gap <= GapMax && Value(f[12..20]) == m.data.cmd;
            r.fsm.phase == Standby
            && r.mailbox == (if !held then Deliver(m, Decode(f, m.data.ext))
                             else if s.repeatCount < RptCount then m else MarkHeld(m))
            && (!held && !m.copying ==> r.fsm.possiblyHeld && r.fsm.repeatCount == 0)
            && (held ==> r.fsm.possiblyHeld
                         && r.fsm.repeatCount == (if s.repeatCount < RptCount then s.repeatCount + 1 else s.repeatCount))
  {
    RunAppend(s, m, [gap, lead], ds);
    RunPair(s, m, gap, lead);
    var p := Run(s, m, [gap, lead]);
    ReceiveFrame(p.fsm, m, ds, f);
    ValueZeroPad(f[..12], 4);
  }

  /** The edges of one repeated frame `f`: an ordinary gap, a leading mark
      and 20 bit marks. */
  predicate RepeatEdges(t: seq<u32>, f: seq<bool>)
  {
    |t| == 22 && |f| == 20 && GapMin < t[0] <= GapMax && IsLeadingMark(t[1]) && Carries(t[2..], f)
  }

  /** One repeated frame with the slot's command while a held key is
      possible: counted, or re-announced once RptCount have passed. */
  lemma HeldRepeat(s: State, m: Mailbox, t: seq<u32>, f: seq<bool>)
    requires s.phase == Standby && s.possiblyHeld && RepeatEdges(t, f) && Value(f[12..20]) == m.data.cmd
    ensures var r := Run(s, m, t);
            r.fsm.phase == Standby && r.fsm.possiblyHeld
            && r.fsm.repeatCount == (if s.repeatCount < RptCount then s.repeatCount + 1 else s.repeatCount)
            && r.mailbox == (if s.repeatCount < RptCount then m else MarkHeld(m))
  {
    assert t == [t[0], t[1]] + t[2..];
    DecodeTransmission(s, m, t[0], t[1], t[2..], f);
  }

  /** After a decoded frame, a key held through four more frames: the first
      three are swallowed and the fourth re-announces the command as held. */
  lemma {:induction false} FourthRepeatReportsHeld(s: State, m: Mailbox, f: seq<bool>,
                                                   t1: seq<u32>, t2: seq<u32>, t3: seq<u32>, t4: seq<u32>)
    requires s.phase == Standby && s.possiblyHeld && s.repeatCount == 0
    requires |f| == 20 && Value(f[12..20]) == m.data.cmd
    requires RepeatEdges(t1, f) && RepeatEdges(t2, f) && RepeatEdges(t3, f) && RepeatEdges(t4, f)
    ensures Run(s, m, t1).mailbox == m
    ensures Run(s, m, t1 + t2).mailbox == m
    ensures Run(s, m, t1 + t2 + t3).mailbox == m
    ensures Run(s, m, t1 + t2 + t3 + t4).mailbox == MarkHeld(m)
  {
    HeldRepeat(s, m, t1, f);
    var p1 := Run(s, m, t1);
    HeldRepeat(p1.fsm, m, t2, f);
    RunAppend(s, m, t1, t2);
    var p2 := Run(s, m, t1 + t2);
    HeldRepeat(p2.fsm, m, t3, f);
    RunAppend(s, m, t1 + t2, t3);
    var p3 := Run(s, m, t1 + t2 + t3);
    HeldRepeat(p3.fsm, m, t4, f);
    RunAppend(s, m, t1 + t2 + t3, t4);
  }

  /** After a silence longer than GapMax no held key is possible, so a
      transmission always delivers the command it carries. */
  lemma FreshAfterSilence(s: State, m: Mailbox, gap: u32, lead: u32, ds: seq<u32>, addr: nat, cmd: nat)
    requires s.phase == Standby && gap > GapMax && IsLeadingMark(lead)
    requires addr < 0x1000 && cmd < 0x100 && Carries(ds, Encode(addr, cmd)) && !m.copying
    ensures var r := Run(s, m, [gap, lead] + ds);
            r.mailbox == Mailbox(IrData(addr, cmd, m.data.ext, false), true, false)
            && r.fsm.possiblyHeld && r.fsm.repeatCount == 0
  {
    DecodeTransmission(s, m, gap, lead, ds, Encode(addr, cmd));
    RoundTrip(addr, cmd, m.data.ext);
  }

  /** The repeat test compares only the command: a frame with another
      address but the slot's command, after an ordinary gap, counts as the
      held key, and the slot keeps its address. */
  lemma RepeatIgnoresAddress(s: State, m: Mailbox, gap: u32, lead: u32, ds: seq<u32>, addr: nat)
    requires s.phase == Standby && s.possiblyHeld && GapMin < gap <= GapMax && IsLeadingMark(lead)
    requires addr < 0x1000 && addr != m.data.addr && Carries(ds, Encode(addr, m.data.cmd))
    ensures Run(s, m, [gap, lead] + ds).mailbox.data.addr == m.data.addr
  {
    var f := Encode(addr, m.data.cmd);
    DecodeTransmission(s, m, gap, lead, ds, f);
    RoundTrip(addr, m.data.cmd, m.data.ext);
  }
}
