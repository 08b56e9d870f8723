/** The SAMSUNG32 edge handler (`irISR` of src/IRsmallD_SAMSUNG32.h).

    Pulse-distance coding on falling edges: a gap moves the handler out of
    standby, a leading mark starts a frame of 32 bit marks, least significant
    bit first: the address, the address again, the command and its
    complement, one byte each. Each byte is shifted into its own element of
    a four-byte array. A frame that passes both checks and whose command
    equals the slot's, arriving after an ordinary gap, is a repeat of a held key.
 */
module Samsung32 {
  import opened Bits
  import opened Mailbox

  // Thresholds in µs.
  const GapMin: u32 := 31165
  const GapMax: u32 := 76835
  const LeadMarkMin: u32 := 8100
  const LeadMarkMax: u32 := 9900
  const Mark0Min: u32 := 413
  const Mark1Min: u32 := 1838
  const Mark1Max: u32 := 3262

  /** Repeated frames swallowed before a held key is reported. */
  const RptCount: u8 := 2

  predicate IsLeadingMark(d: u32) { LeadMarkMin <= d <= LeadMarkMax }
  predicate IsBitMark(d: u32) { Mark0Min <= d <= Mark1Max }

  /** The bit a bit mark carries: a long mark is a 1. */
  function BitOf(d: u32): bool { d >= Mark1Min }

  /** The array `irSignal[4]`. */
  type Bytes4 = b: seq<Word8> | |b| == 4 witness [Zeros(8), Zeros(8), Zeros(8), Zeros(8)]

  datatype Phase = Standby | StartPulse | Receiving

  /** The handler's static variables; `byteIndex` selects the array element
      that receives the next bit. */
  datatype State = State(phase: Phase, bitCount: u8, signal: Bytes4, byteIndex: u8, repeatCount: u8, possiblyHeld: bool)

  function Init(): (s: State)
    ensures s.phase == Standby && !s.possiblyHeld && s.repeatCount == 0 && s.byteIndex == 0
    ensures Valid(s)
  {
    State(Standby, 0, [Zeros(8), Zeros(8), Zeros(8), Zeros(8)], 0, 0, false)
  }

  /** The array index is in range whenever a bit can arrive. */
  predicate InBounds(s: State)
  {
    s.phase == Receiving ==> s.byteIndex < 4
  }

  /** While receiving, fewer than 32 bits have arrived and the index is the
      number of completed bytes. */
  predicate Valid(s: State)
  {
    s.phase == Receiving ==> s.bitCount < 32 && s.byteIndex as int == s.bitCount as int / 8
  }

  /** Both checks of a complete frame: the address is repeated and the
      command is followed by its complement. */
  predicate Checks(sig: Bytes4)
  {
    sig[0] == sig[1] && sig[2] == Not(sig[3])
  }

  // ---------------------------------------------------------------------------
  // One edge

  /** The 32nd bit: a frame failing a check is dropped; a checked frame whose
      command equals the slot's, while a held key is possible, is a repeat;
      any other checked frame is a fresh command, written unless the consumer
      is copying. Either way the handler returns to standby. */
  function Finish(s: State, m: Mailbox): (r: Stepped<State>)
    ensures r.fsm.phase == Standby && r.mailbox.copying == m.copying
    ensures !Checks(s.signal) ==>
              r.mailbox == m && r.fsm.possiblyHeld == s.possiblyHeld && r.fsm.repeatCount == s.repeatCount
    ensures Checks(s.signal) && s.possiblyHeld && Value(s.signal[2]) == m.data.cmd ==>
              r.mailbox == (if s.repeatCount < RptCount then m else MarkHeld(m))
              && r.fsm.possiblyHeld
              && r.fsm.repeatCount == (if s.repeatCount < RptCount then s.repeatCount + 1 else s.repeatCount)
    ensures Checks(s.signal) && !(s.possiblyHeld && Value(s.signal[2]) == m.data.cmd) ==>
              r.mailbox == Deliver(m, IrData(ByteValue(s.signal[0]), ByteValue(s.signal[2]), m.data.ext, false))
              && (!m.copying ==> r.fsm.possiblyHeld && r.fsm.repeatCount == 0)
  {
    var t := s.(phase := Standby);
    if Checks(s.signal) then
      if s.possiblyHeld && ByteValue(s.signal[2]) == m.data.cmd then
        if s.repeatCount < RptCount then Stepped(t.(repeatCount := s.repeatCount + 1), m)
        else Stepped(t, MarkHeld(m))
      else if !m.copying then
        Stepped(t.(possiblyHeld := true, repeatCount := 0),
                Deliver(m, IrData(ByteValue(s.signal[0]), ByteValue(s.signal[2]), m.data.ext, false)))
      else Stepped(t, m)
    else Stepped(t, m)
  }

  /** One edge: `d` is the time since the previous edge, `m` the shared slot. */
  function Step(s: State, m: Mailbox, d: u32): (r: Stepped<State>)
    requires InBounds(s)
    ensures r.mailbox.copying == m.copying
    ensures m.copying ==> r.mailbox == m
    ensures d < Mark0Min ==> r.fsm.phase == Standby
    ensures Valid(s) ==> Valid(r.fsm)
    ensures r.mailbox != m ==> r.fsm.phase == Standby && s.phase == Receiving && s.bitCount == 31
  {
    match s.phase
    case Standby =>
      if d > GapMin then
        Stepped(s.(phase := StartPulse, possiblyHeld := s.possiblyHeld && d <= GapMax), m)
      else
        Stepped(s.(possiblyHeld := false), m)
    case StartPulse =>
      if IsLeadingMark(d) then Stepped(s.(phase := Receiving, bitCount := 0, byteIndex := 0), m)
      else Stepped(s.(phase := Standby), m)
    case Receiving =>
      if !IsBitMark(d) then Stepped(s.(phase := Standby), m)
      else
        var i := s.byteIndex;
        var sig := s.signal[i := PushMsb(s.signal[i], BitOf(d))];
        var c := Inc8(s.bitCount);
        if c == 8 || c == 16 || c == 24 then
          Stepped(s.(signal := sig, bitCount := c, byteIndex := Inc8(i)), m)
        else if c == 32 then
          Finish(s.(signal := sig, bitCount := c), m)
        else
          Stepped(s.(signal := sig, bitCount := c), m)
  }

  /** The handler run over a sequence of edges, oldest first, from a state
      the handler can reach. */
  function Run(s: State, m: Mailbox, ds: seq<u32>): (r: Stepped<State>)
    requires Valid(s)
    ensures Valid(r.fsm)
    ensures r.mailbox.copying == m.copying
    ensures m.copying ==> r.mailbox == m
    decreases |ds|
  {
    if |ds| == 0 then Stepped(s, m)
    else
      var p := Run(s, m, ds[..|ds| - 1]);
      Step(p.fsm, p.mailbox, ds[|ds| - 1])
  }

  lemma {:induction false} RunAppend(s: State, m: Mailbox, a: seq<u32>, b: seq<u32>)
    requires Valid(s)
    ensures var p := Run(s, m, a);
            Run(s, m, a + b) == Run(p.fsm, p.mailbox, b)
    decreases |b|
  {
    if |b| > 0 {
      RunAppend(s, m, a, b[..|b| - 1]);
      assert (a + b)[..|a + b| - 1] == a + b[..|b| - 1];
      assert (a + b)[|a + b| - 1] == b[|b| - 1];
    } else {
      assert a + b == a;
    }
  }

  lemma RunPair(s: State, m: Mailbox, d1: u32, d2: u32)
    requires Valid(s)
    ensures var p := Step(s, m, d1);
            Run(s, m, [d1, d2]) == Step(p.fsm, p.mailbox, d2)
  {
    assert [d1, d2][..1] == [d1];
    assert [d1][..0] == [];
    assert Run(s, m, [d1]) == Step(s, m, d1);
  }

  // ---------------------------------------------------------------------------
  // Frames as a remote sends them

  /** `ds` is a run of bit marks carrying `bits`, one mark per bit. */
  predicate Carries(ds: seq<u32>, bits: seq<bool>)
  {
    |ds| == |bits| && forall i :: 0 <= i < |ds| ==> IsBitMark(ds[i]) && BitOf(ds[i]) == bits[i]
  }

  lemma CarriesPrefix(ds: seq<u32>, bits: seq<bool>, j: nat)
    requires Carries(ds, bits) && j < |ds|
    ensures Carries(ds[..j], bits[..j])
    ensures IsBitMark(ds[j]) && BitOf(ds[j]) == bits[j]
  {
    forall i | 0 <= i < j
      ensures IsBitMark(ds[..j][i]) && BitOf(ds[..j][i]) == bits[..j][i]
    {
      assert ds[..j][i] == ds[i];
    }
  }

  /** The 32 bits a remote sends: address, address, command, complemented
      command, each least significant bit first. */
  function Encode(addr: u8, cmd: u8): (f: seq<bool>)
    ensures |f| == 32
  {
    LsbBits(addr, 8) + LsbBits(addr, 8) + LsbBits(cmd, 8) + Not(LsbBits(cmd, 8))
  }

  /** A 32-bit frame split into the four array elements. */
  function Split(f: seq<bool>): (sig: Bytes4)
    requires |f| == 32
    ensures forall j :: 0 <= j < 4 ==> sig[j] == Byte(f, j)
  {
    [Byte(f, 0), Byte(f, 1), Byte(f, 2), Byte(f, 3)]
  }

  /** An encoded frame passes both checks and decodes to what was sent. */
  lemma RoundTrip(addr: u8, cmd: u8)
    ensures var sig := Split(Encode(addr, cmd));
            Checks(sig) && Value(sig[0]) == addr && Value(sig[2]) == cmd
  {
    var f := Encode(addr, cmd);
    assert Byte(f, 0) == LsbBits(addr, 8) && Byte(f, 1) == LsbBits(addr, 8);
    assert Byte(f, 2) == LsbBits(cmd, 8) && Byte(f, 3) == Not(LsbBits(cmd, 8));
    NotNot(LsbBits(cmd, 8));
    Pow2Widths();
    ValueOfLsbBits(addr, 8);
    ValueOfLsbBits(cmd, 8);
  }

  /** Conversely, every frame passing both checks is the encoding of the
      address and command it decodes to: the checks admit nothing else. */
  lemma ChecksAdmitOnlyEncodings(f: seq<bool>)
    requires |f| == 32 && Checks(Split(f))
    ensures f == Encode(ByteValue(Byte(f, 0)), ByteValue(Byte(f, 2)))
  {
    var sig := Split(f);
    var a := ByteValue(sig[0]);
    var c := ByteValue(sig[2]);
    LsbBitsAt(a as nat, sig[0], 8);
    LsbBitsAt(c as nat, sig[2], 8);
    NotNot(sig[3]);
    FourBytes(f, sig[0], sig[1], sig[2], sig[3]);
  }

  // ---------------------------------------------------------------------------
  // Receiving a frame

  /** Array element j after k bits of `f`, starting from `prev`: a full byte
      of the frame once its eight bits have arrived, the bits so far above
      what is left of `prev` while it is filling, `prev` before. */
  function ByteAfter(prev: Word8, f: seq<bool>, j: nat, k: nat): (b: Word8)
    requires k <= |f| == 32 && j < 4
  {
    if 8 * j + 8 <= k then Byte(f, j)
    else if 8 * j <= k then prev[k - 8 * j..] + f[8 * j..k]
    else prev
  }

  /** The state after k bits of `f` from the leading mark. */
  function After(s: State, f: seq<bool>, k: nat): (r: State)
    requires k < 32 && |f| == 32
    ensures Valid(r) || r.phase != Receiving
  {
    var sig := [ByteAfter(s.signal[0], f, 0, k), ByteAfter(s.signal[1], f, 1, k),
                ByteAfter(s.signal[2], f, 2, k), ByteAfter(s.signal[3], f, 3, k)];
    s.(bitCount := k as u8, byteIndex := (k / 8) as u8, signal := sig)
  }

  /** The bit at position k enters the byte being filled. */
  lemma FillByte(prev: Word8, f: seq<bool>, k: nat)
    requires k < |f| == 32
    ensures var j := k / 8;
            PushMsb(ByteAfter(prev, f, j, k), f[k]) == ByteAfter(prev, f, j, k + 1)
  {
    var j := k / 8;
    ShiftIn(prev, f[8 * j..8 * j + 8], k - 8 * j);
    assert f[8 * j..8 * j + 8][..k - 8 * j] == f[8 * j..k];
    assert f[8 * j..8 * j + 8][..k + 1 - 8 * j] == f[8 * j..k + 1];
    assert f[8 * j..8 * j + 8][k - 8 * j] == f[k];
  }

  /** The other array elements do not change. */
  lemma KeepByte(prev: Word8, f: seq<bool>, j: nat, k: nat)
    requires k < |f| == 32 && j < 4 && j != k / 8
    ensures ByteAfter(prev, f, j, k) == ByteAfter(prev, f, j, k + 1)
  {
    if 8 * j == k + 1 {
      assert prev[0..] + f[k + 1..k + 1] == prev;
    }
  }

  /** The array after one more bit of the frame. */
  lemma FillArray(s: State, f: seq<bool>, k: nat)
    requires k < 31 && |f| == 32
    ensures var a := After(s, f, k);
            var j := k / 8;
            a.signal[j := PushMsb(a.signal[j], f[k])] == After(s, f, k + 1).signal
  {
    var a := After(s, f, k);
    var j := k / 8;
    var sig := a.signal[j := PushMsb(a.signal[j], f[k])];
    forall t | 0 <= t < 4
      ensures sig[t] == After(s, f, k + 1).signal[t]
    {
      if t == j {
        FillByte(s.signal[t], f, k);
      } else {
        KeepByte(s.signal[t], f, t, k);
      }
    }
  }

  /** One bit mark inside the frame, before the last. */
  lemma ReceiveOne(s: State, m: Mailbox, f: seq<bool>, k: nat, d: u32)
    requires s.phase == Receiving && s.bitCount == 0 && s.byteIndex == 0
    requires k < 31 && |f| == 32 && IsBitMark(d) && BitOf(d) == f[k]
    ensures Step(After(s, f, k), m, d) == Stepped(After(s, f, k + 1), m)
  {
    FillArray(s, f, k);
    var c := k + 1;
    assert (c == 8 || c == 16 || c == 24) <==> c / 8 == k / 8 + 1;
  }

  /** k bit marks after a leading mark, k < 32. */
  lemma {:induction false} ReceivePrefix(s: State, m: Mailbox, ds: seq<u32>, f: seq<bool>)
    requires s.phase == Receiving && s.bitCount == 0 && s.byteIndex == 0
    requires |ds| < 32 && |f| == 32 && Carries(ds, f[..|ds|])
    ensures Run(s, m, ds) == Stepped(After(s, f, |ds|), m)
    decreases |ds|
  {
    var k := |ds|;
    if k == 0 {
      assert s.signal[0][0..] + f[0..0] == s.signal[0];
      assert After(s, f, 0).signal == s.signal;
    } else {
      CarriesPrefix(ds, f[..k], k - 1);
      assert f[..k][..k - 1] == f[..k - 1];
      ReceivePrefix(s, m, ds[..k - 1], f);
      ReceiveOne(s, m, f, k - 1, ds[k - 1]);
    }
  }

  /** All 32 bit marks: the array holds the frame's four bytes, whatever it
      held before, and the frame is judged. */
  lemma ReceiveFrame(s: State, m: Mailbox, ds: seq<u32>, f: seq<bool>)
    requires s.phase == Receiving && s.bitCount == 0 && s.byteIndex == 0
    requires |f| == 32 && Carries(ds, f)
    ensures Run(s, m, ds) == Finish(s.(bitCount := 32, byteIndex := 3, signal := Split(f)), m)
  {
    CarriesPrefix(ds, f, 31);
    ReceivePrefix(s, m, ds[..31], f);
    assert ds == ds[..31] + [ds[31]];
    FillByte(s.signal[3], f, 31);
    var a := After(s, f, 31);
    assert a.signal[3 := PushMsb(a.signal[3], f[31])] == Split(f);
  }

  /** A whole transmission from standby: gap, leading mark, 32 bit marks.
      A frame failing a check leaves the slot untouched. After an ordinary
      gap while a held key is possible, a checked frame with the slot's
      command is a repeat; any other checked frame delivers its address and command. */
  lemma {:induction false} DecodeTransmission(s: State, m: Mailbox, gap: u32, lead: u32, ds: seq<u32>, f: seq<bool>)
    requires Valid(s) && s.phase == Standby && gap > GapMin && IsLeadingMark(lead)
    requires |f| == 32 && Carries(ds, f)
    ensures var r := Run(s, m, [gap, lead] + ds);
            var sig := Split(f);
            var held := s.possiblyHeld && gap <= GapMax && Value(sig[2]) == m.data.cmd;
            r.fsm.phase == Standby
            && r.mailbox == (if !Checks(sig) then m
                             else if !held then Deliver(m, IrData(ByteValue(sig[0]), ByteValue(sig[2]), m.data.ext, false))
                             else if s.repeatCount < RptCount then m else MarkHeld(m))
            && (Checks(sig) && held ==>
                  r.fsm.possiblyHeld
                  && r.fsm.repeatCount == (if s.repeatCount < RptCount then s.repeatCount + 1 else s.repeatCount))
            && (Checks(sig) && !held && !m.copying ==> r.fsm.possiblyHeld && r.fsm.repeatCount == 0)
  {
    RunAppend(s, m, [gap, lead], ds);
    RunPair(s, m, gap, lead);
    var p := Run(s, m, [gap, lead]);
    ReceiveFrame(p.fsm, m, ds, f);
  }

  /** The edges of one repeated frame `f`: an ordinary gap, a leading mark
      and 32 bit marks. */
  predicate RepeatEdges(t: seq<u32>, f: seq<bool>)
  {
    |t| == 34 && |f| == 32 && GapMin < t[0] <= GapMax && IsLeadingMark(t[1]) && Carries(t[2..], f)
  }

  /** One repeated checked frame with the slot's command while a held key
      is possible: counted, or re-announced once RptCount have passed. */
  lemma HeldRepeat(s: State, m: Mailbox, t: seq<u32>, f: seq<bool>)
    requires Valid(s) && s.phase == Standby && s.possiblyHeld && RepeatEdges(t, f)
    requires Checks(Split(f)) && Value(Split(f)[2]) == m.data.cmd
    ensures var r := Run(s, m, t);
            r.fsm.phase == Standby && r.fsm.possiblyHeld
            && r.fsm.repeatCount == (if s.repeatCount < RptCount then s.repeatCount + 1 else s.repeatCount)
            && r.mailbox == (if s.repeatCount < RptCount then m else MarkHeld(m))
  {
    assert t == [t[0], t[1]] + t[2..];
    DecodeTransmission(s, m, t[0], t[1], t[2..], f);
  }

  /** After a decoded frame, a key held through three more frames: the
      first two are swallowed and the third re-announces the command as held. */
  lemma {:induction false} ThirdRepeatReportsHeld(s: State, m: Mailbox, f: seq<bool>,
                                                  t1: seq<u32>, t2: seq<u32>, t3: seq<u32>)
    requires Valid(s) && s.phase == Standby && s.possiblyHeld && s.repeatCount == 0
    requires |f| == 32 && Checks(Split(f)) && Value(Split(f)[2]) == m.data.cmd
    requires RepeatEdges(t1, f) && RepeatEdges(t2, f) && RepeatEdges(t3, f)
    ensures Run(s, m, t1).mailbox == m
    ensures Run(s, m, t1 + t2).mailbox == m
    ensures Run(s, m, t1 + t2 + t3).mailbox == MarkHeld(m)
  {
    HeldRepeat(s, m, t1, f);
    var p1 := Run(s, m, t1);
    HeldRepeat(p1.fsm, m, t2, f);
    RunAppend(s, m, t1, t2);
    var p2 := Run(s, m, t1 + t2);
    HeldRepeat(p2.fsm, m, t3, f);
    RunAppend(s, m, t1 + t2, t3);
  }

  /** After a silence longer than GapMax, a remote's transmission of an
      address and command delivers exactly those. */
  lemma FreshAfterSilence(s: State, m: Mailbox, gap: u32, lead: u32, ds: seq<u32>, addr: u8, cmd: u8)
    requires Valid(s) && s.phase == Standby && gap > GapMax && IsLeadingMark(lead)
    requires Carries(ds, Encode(addr, cmd)) && !m.copying
    ensures Run(s, m, [gap, lead] + ds).mailbox == Mailbox(IrData(addr, cmd, m.data.ext, false), true, false)
  {
    DecodeTransmission(s, m, gap, lead, ds, Encode(addr, cmd));
    RoundTrip(addr, cmd);
  }
}
