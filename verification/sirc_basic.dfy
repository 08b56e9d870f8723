/** The basic Sony SIRC edge handler (`irISR` of src/IRsmallD_SIRC_basic.h),
    compiled for one fixed frame width of 12, 15 or 20 bits.

    Pulse-width coding: the handler runs at the end of every mark and sees
    the time since the previous one. A long enough silence starts a frame;
    then each interval of 1200 µs (a 0) or 1800 µs (a 1) carries one bit,
    least significant first: 7 command bits, then 5 address bits (12 and 20
    bits) or 8 (15 bits), then for 20 bits an 8-bit extension. The buffer
    is never cleared; the bits below the frame are stale and the extraction
    shifts them out. Held keys are not tracked.
 */
module SircBasic {
  import opened Bits
  import opened Mailbox

  datatype Width = W12 | W15 | W20

  function FrameBits(n: Width): (r: nat)
    ensures r == 12 || r == 15 || r == 20
  {
    match n
    case W12 => 12
    case W15 => 15
    case W20 => 20
  }

  /** The buffer is a uint16_t for 12 and 15 bits and a uint32_t for 20. */
  function BufLen(n: Width): (r: nat)
    ensures r > FrameBits(n)
  {
    if n == W20 then 32 else 16
  }

  /** The shortest silence that starts a frame: 80% of the standard gap of
      (75 - (4 + 3N)) · 600 µs. */
  function GapMin(n: Width): (r: u32)
    ensures r == (75 - (4 + 3 * FrameBits(n))) * 480
  {
    match n
    case W12 => 16800
    case W15 => 12480
    case W20 => 5280
  }

  const Mark0Min: u32 := 900
  const Mark1Min: u32 := 1500
  const Mark1Max: u32 := 2100

  predicate IsBitMark(d: u32) { Mark0Min <= d <= Mark1Max }

  /** The bit a mark carries: a long mark is a 1. */
  function BitOf(d: u32): bool { d >= Mark1Min }

  datatype Phase = Standby | Receiving

  /** The handler's static variables; `_state` is the phase. */
  datatype State = State(phase: Phase, bitCount: u8, signal: seq<bool>)

  function Init(n: Width): (s: State)
    ensures s.phase == Standby && |s.signal| == BufLen(n)
    ensures Valid(n, s)
  {
    State(Standby, 0, Zeros(BufLen(n)))
  }

  /** The buffer has the compiled width, and while receiving fewer than N bits have arrived. */
  predicate Valid(n: Width, s: State)
  {
    |s.signal| == BufLen(n) && (s.phase == Receiving ==> s.bitCount < FrameBits(n))
  }

  // ---------------------------------------------------------------------------
  // Field extraction

  /** The fields a complete buffer yields and the buffer the shifts leave. */
  datatype Extracted = Extracted(addr: u16, cmd: u8, ext: u8, buffer: seq<bool>)

  /** The source's shifts and byte reads on a buffer holding a complete frame
      in its top N bits. `ext` is what the slot held; only 20-bit frames
      replace it. */
  function Extract(n: Width, w: seq<bool>, ext: u8): (r: Extracted)
    requires |w| == BufLen(n)
    ensures |r.buffer| == |w|
  {
    match n
    case W12 =>
      var w1 := Shr(w, 3);
      var b0 := Shr(Byte(w1, 0), 1);
      Extracted(ByteValue(Byte(w1, 1)), ByteValue(b0), ext, b0 + w1[8..])
    case W15 =>
      var b0 := Shr(Byte(w, 0), 1);
      Extracted(ByteValue(Byte(w, 1)), ByteValue(b0), ext, b0 + w[8..])
    case W20 =>
      var e := ByteValue(Byte(w, 3));
      var w1 := Shr(w[..24] + Zeros(8), 3);
      var b1 := Shr(Byte(w1, 1), 1);
      Extracted(ByteValue(Byte(w1, 2)), ByteValue(b1), e, w1[..8] + b1 + w1[16..])
  }

  /** The fields of a frame, read straight from the bits in the order they
      were sent: command first, then address, then extension. */
  function Fields(n: Width, f: seq<bool>, ext: u8): (r: Extracted)
    requires |f| == FrameBits(n)
  {
    var addrBits := if n == W15 then 8 else 5;
    Extracted(ByteValue(f[7..7 + addrBits]), ByteValue(f[..7]),
              if n == W20 then ByteValue(f[12..20]) else ext, [])
  }

  /** The extraction reads the frame's own bits, whatever stale bits lie
      below them: only the fields agree with Fields, not the leftover buffer. */
  lemma ExtractReadsFrame(n: Width, stale: seq<bool>, f: seq<bool>, ext: u8)
    requires |f| == FrameBits(n) && |stale| == BufLen(n) - FrameBits(n)
    ensures var x := Extract(n, stale + f, ext);
            var y := Fields(n, f, ext);
            x.addr == y.addr && x.cmd == y.cmd && x.ext == y.ext
  {
    var w := stale + f;
    match n
    case W12 =>
      var w1 := Shr(w, 3);
      var tail := f + Zeros(3);
      assert w1 == stale[3..] + tail;
      assert Byte(w1, 0) == stale[3..] + f[..7];
      assert Shr(Byte(w1, 0), 1) == f[..7] + Zeros(1);
      assert Byte(w1, 1) == tail[7..15];
      assert tail[7..15] == f[7..12] + Zeros(3);
      ValueZeroPad(f[..7], 1);
      ValueZeroPad(f[7..12], 3);
    case W15 =>
      assert Shr(Byte(w, 0), 1) == f[..7] + Zeros(1);
      assert Byte(w, 1) == f[7..15];
      ValueZeroPad(f[..7], 1);
    case W20 =>
      var x := w[..24] + Zeros(8);
      assert x == stale + f[..12] + Zeros(8);
      var w1 := Shr(x, 3);
      assert Byte(w, 3) == f[12..20];
      assert forall i | 0 <= i < 21 :: w1[i + 9] == (if i < 12 then f[i] else false);
      assert Shr(Byte(w1, 1), 1) == f[..7] + Zeros(1);
      assert Byte(w1, 2) == f[7..12] + Zeros(3);
      ValueZeroPad(f[..7], 1);
      ValueZeroPad(f[7..12], 3);
  }

  /** The command is 7 bits wide, the address 5 or 8, whatever the buffer holds. */
  lemma ExtractRanges(n: Width, w: seq<bool>, ext: u8)
    requires |w| == BufLen(n)
    ensures var x := Extract(n, w, ext);
            x.cmd < 0x80 && (n == W15 ==> x.addr < 0x100) && (n != W15 ==> x.addr < 0x20)
            && (n != W20 ==> x.ext == ext)
  {
    Pow2Widths();
    match n
    case W12 =>
      var w1 := Shr(w, 3);
      ShrByteBound(Byte(w1, 0));
      assert Byte(w1, 1) == w[11..16] + Zeros(3);
      ValueZeroPad(w[11..16], 3);
    case W15 =>
      ShrByteBound(Byte(w, 0));
    case W20 =>
      var w1 := Shr(w[..24] + Zeros(8), 3);
      ShrByteBound(Byte(w1, 1));
      assert Byte(w1, 2) == w[19..24] + Zeros(3);
      ValueZeroPad(w[19..24], 3);
  }

  /** `(uint8_t)b >> 1` is below 128. */
  lemma ShrByteBound(b: Word8)
    ensures Value(Shr(b, 1)) < 0x80
  {
    Pow2Widths();
    assert Shr(b, 1) == b[1..] + Zeros(1);
    ValueZeroPad(b[1..], 1);
  }

  // ---------------------------------------------------------------------------
  // One edge

  /** One edge: `d` is the time since the previous edge, `m` the shared slot. */
  function Step(n: Width, s: State, m: Mailbox, d: u32): (r: Stepped<State>)
    requires |s.signal| == BufLen(n)
    ensures |r.fsm.signal| == BufLen(n)
    ensures r.mailbox.copying == m.copying
    ensures m.copying ==> r.mailbox == m
    ensures d < Mark0Min ==> r.fsm.phase == Standby
    ensures Valid(n, s) ==> Valid(n, r.fsm)
    ensures r.mailbox.data.keyHeld == m.data.keyHeld
    ensures r.mailbox != m ==> r.mailbox.available && r.fsm.phase == Standby && r.fsm.bitCount == FrameBits(n)
  {
    match s.phase
    case Standby =>
      if d > GapMin(n) then Stepped(s.(phase := Receiving, bitCount := 0), m)
      else Stepped(s, m)
    case Receiving =>
      if !IsBitMark(d) then Stepped(s.(phase := Standby), m)
      else
        var w := PushMsb(s.signal, BitOf(d));
        var c := Inc8(s.bitCount);
        if c == FrameBits(n) then
          if !m.copying then
            var x := Extract(n, w, m.data.ext);
            Stepped(State(Standby, c, x.buffer), Deliver(m, m.data.(addr := x.addr, cmd := x.cmd, ext := x.ext)))
          else
            Stepped(State(Standby, c, w), m)
        else
          Stepped(s.(bitCount := c, signal := w), m)
  }

  /** The handler run over a sequence of edges, oldest first. */
  function Run(n: Width, s: State, m: Mailbox, ds: seq<u32>): (r: Stepped<State>)
    requires |s.signal| == BufLen(n)
    ensures |r.fsm.signal| == BufLen(n)
    ensures r.mailbox.copying == m.copying
    ensures m.copying ==> r.mailbox == m
    ensures Valid(n, s) ==> Valid(n, r.fsm)
    decreases |ds|
  {
    if |ds| == 0 then Stepped(s, m)
    else
      var p := Run(n, s, m, ds[..|ds| - 1]);
      Step(n, p.fsm, p.mailbox, ds[|ds| - 1])
  }

  lemma {:induction false} RunAppend(n: Width, s: State, m: Mailbox, a: seq<u32>, b: seq<u32>)
    requires |s.signal| == BufLen(n)
    ensures var p := Run(n, s, m, a);
            Run(n, s, m, a + b) == Run(n, p.fsm, p.mailbox, b)
    decreases |b|
  {
    if |b| > 0 {
      RunAppend(n, s, m, a, b[..|b| - 1]);
      assert (a + b)[..|a + b| - 1] == a + b[..|b| - 1];
      assert (a + b)[|a + b| - 1] == b[|b| - 1];
    } else {
      assert a + b == a;
    }
  }

  // ---------------------------------------------------------------------------
  // Receiving a frame

  /** `ds` is a run of bit marks carrying `bits`, one mark per bit. */
  predicate Carries(ds: seq<u32>, bits: seq<bool>)
  {
    |ds| == |bits| && forall i :: 0 <= i < |ds| ==> IsBitMark(ds[i]) && BitOf(ds[i]) == bits[i]
  }

  lemma CarriesPrefix(ds: seq<u32>, bits: seq<bool>, j: nat)
    requires Carries(ds, bits) && j < |ds|
    ensures Carries(ds[..j], bits[..j])
    ensures IsBitMark(ds[j]) && BitOf(ds[j]) == bits[j]
  {
    forall i | 0 <= i < j
      ensures IsBitMark(ds[..j][i]) && BitOf(ds[..j][i]) == bits[..j][i]
    {
      assert ds[..j][i] == ds[i];
    }
  }

  /** k bit marks after the gap (k < N): the buffer holds the k bits above
      what was left of it, and nothing is written. */
  lemma {:induction false} ReceivePrefix(n: Width, s: State, m: Mailbox, ds: seq<u32>, f: seq<bool>)
    requires |s.signal| == BufLen(n) && s.phase == Receiving && s.bitCount == 0
    requires |ds| < FrameBits(n) && |f| == FrameBits(n) && Carries(ds, f[..|ds|])
    ensures Run(n, s, m, ds) == Stepped(s.(bitCount := |ds|, signal := s.signal[|ds|..] + f[..|ds|]), m)
    decreases |ds|
  {
    var k := |ds|;
    if k == 0 {
      assert s.signal[0..] + f[..0] == s.signal;
    } else {
      CarriesPrefix(ds, f[..k], k - 1);
      assert f[..k][..k - 1] == f[..k - 1];
      ReceivePrefix(n, s, m, ds[..k - 1], f);
      ShiftIn(s.signal, f, k - 1);
    }
  }

  /** N bit marks after the gap: the buffer holds the frame above the N
      lowest stale bits' remainder, and the handler returns to standby having
      extracted the fields, unless the consumer is copying. */
  lemma {:induction false} ReceiveFrame(n: Width, s: State, m: Mailbox, ds: seq<u32>, f: seq<bool>)
    requires |s.signal| == BufLen(n) && s.phase == Receiving && s.bitCount == 0
    requires |f| == FrameBits(n) && Carries(ds, f)
    ensures var w := s.signal[FrameBits(n)..] + f;
            var x := Extract(n, w, m.data.ext);
            Run(n, s, m, ds)
            == if m.copying then Stepped(State(Standby, FrameBits(n) as u8, w), m)
               else Stepped(State(Standby, FrameBits(n) as u8, x.buffer),
                            Deliver(m, m.data.(addr := x.addr, cmd := x.cmd, ext := x.ext)))
  {
    var N := FrameBits(n);
    CarriesPrefix(ds, f, N - 1);
    ReceivePrefix(n, s, m, ds[..N - 1], f);
    ShiftIn(s.signal, f, N - 1);
    assert f[..N] == f;
  }

  /** A whole transmission from standby: a gap, then N bit marks. The frame
      is delivered with the fields read straight from its bits, the buffer's
      earlier contents notwithstanding, unless the consumer is copying. */
  lemma {:induction false} DecodeTransmission(n: Width, s: State, m: Mailbox, gap: u32, ds: seq<u32>, f: seq<bool>)
    requires |s.signal| == BufLen(n) && s.phase == Standby
    requires gap > GapMin(n) && |f| == FrameBits(n) && Carries(ds, f)
    ensures var r := Run(n, s, m, [gap] + ds);
            var y := Fields(n, f, m.data.ext);
            r.fsm.phase == Standby
            && r.mailbox == Deliver(m, m.data.(addr := y.addr, cmd := y.cmd, ext := y.ext))
  {
    var s0 := s.(phase := Receiving, bitCount := 0);
    assert Run(n, s, m, [gap]) == Stepped(s0, m) by {
      assert [gap][..0] == [];
    }
    RunAppend(n, s, m, [gap], ds);
    ReceiveFrame(n, s0, m, ds, f);
    ExtractReadsFrame(n, s.signal[FrameBits(n)..], f, m.data.ext);
  }

  // ---------------------------------------------------------------------------
  // Encoding and decoding agree

  /** The bits a remote sends for a command, an address and (20 bits) an extension. */
  function Encode(n: Width, cmd: nat, addr: nat, ext: nat): (f: seq<bool>)
    ensures |f| == FrameBits(n)
  {
    match n
    case W12 => LsbBits(cmd, 7) + LsbBits(addr, 5)
    case W15 => LsbBits(cmd, 7) + LsbBits(addr, 8)
    case W20 => LsbBits(cmd, 7) + LsbBits(addr, 5) + LsbBits(ext, 8)
  }

  /** Fields within their widths survive encoding and decoding. */
  lemma FieldsOfEncode(n: Width, cmd: nat, addr: nat, ext: nat, prev: u8)
    requires cmd < 0x80 && ext < 0x100
    requires if n == W15 then addr < 0x100 else addr < 0x20
    ensures var y := Fields(n, Encode(n, cmd, addr, ext), prev);
            y.cmd == cmd && y.addr == addr && y.ext == (if n == W20 then ext else prev)
  {
    Pow2Widths();
    var f := Encode(n, cmd, addr, ext);
    ValueOfLsbBits(cmd, 7);
    assert f[..7] == LsbBits(cmd, 7);
    match n
    case W12 =>
      ValueOfLsbBits(addr, 5);
      assert f[7..12] == LsbBits(addr, 5);
    case W15 =>
      ValueOfLsbBits(addr, 8);
      assert f[7..15] == LsbBits(addr, 8);
    case W20 =>
      ValueOfLsbBits(addr, 5);
      ValueOfLsbBits(ext, 8);
      assert f[7..12] == LsbBits(addr, 5);
      assert f[12..20] == LsbBits(ext, 8);
  }

  /** Conversely, every frame is the encoding of the fields it decodes to. */
  lemma EncodeOfFields(n: Width, f: seq<bool>, prev: u8)
    requires |f| == FrameBits(n)
    ensures var y := Fields(n, f, prev);
            f == Encode(n, y.cmd, y.addr, y.ext)
  {
    var y := Fields(n, f, prev);
    match n
    case W12 => JoinShort(f, 12, y.cmd as nat, y.addr as nat);
    case W15 => JoinShort(f, 15, y.cmd as nat, y.addr as nat);
    case W20 => JoinLong(f, y.cmd as nat, y.addr as nat, y.ext as nat);
  }

  /** A 12- or 15-bit frame: command bits, then address bits. */
  lemma JoinShort(f: seq<bool>, len: nat, cmd: nat, addr: nat)
    requires |f| == len && 7 <= len && cmd == Value(f[..7]) && addr == Value(f[7..len])
    ensures f == LsbBits(cmd, 7) + LsbBits(addr, len - 7)
  {
    assert f[7..len] == f[7..];
    JoinValues(f, 7, cmd, addr);
  }

  /** A 20-bit frame: command bits, address bits, extension bits. */
  lemma JoinLong(f: seq<bool>, cmd: nat, addr: nat, ext: nat)
    requires |f| == 20 && cmd == Value(f[..7]) && addr == Value(f[7..12]) && ext == Value(f[12..20])
    ensures f == LsbBits(cmd, 7) + LsbBits(addr, 5) + LsbBits(ext, 8)
  {
    var g := f[..12];
    assert g[..7] == f[..7] && g[7..] == f[7..12];
    JoinValues(g, 7, cmd, addr);
    assert f[12..20] == f[12..];
    JoinValues(f, 12, Value(g), ext);
    LsbBitsOfValue(g);
  }
}
