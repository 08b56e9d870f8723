/** The multi-width Sony SIRC edge handler (`irISR` of
    src/IRsmallD_SIRC_multi.h), which learns the frame width from the
    transmission itself.

    A command counts only when three consecutive frames agree: the first
    fixes the width (12, 15 or 20 bits) and the code, the second must repeat
    the code, and the third is decoded once it has as many bits as the
    first. A key still held after that is recognised in the first frame of
    the next group and, after five such frames are ignored, announced as held.
 */
module SircMulti {
  import opened Bits
  import opened Mailbox
  import SircBasic

  // Thresholds in µs.
  const GapMin: u32 := 5280
  const GapMax: u32 := 33840
  const Mark0Min: u32 := 900
  const Mark1Min: u32 := 1500
  const Mark1Max: u32 := 2100

  /** Held-key frames swallowed before a held key is reported. */
  const RptCount: u8 := 5

  predicate IsBitMark(d: u32) { Mark0Min <= d <= Mark1Max }
  predicate IsGap(d: u32) { GapMin <= d <= GapMax }

  /** The bit a mark carries: a long mark is a 1. */
  function BitOf(d: u32): bool { d >= Mark1Min }

  datatype Phase = Standby | Receiving

  /** The handler's static variables. `signal` is the 32-bit buffer (each
      bit enters at bit 31); `frameCount` says which of the three frames is
      arriving; `firstBitCount` and `firstCode` remember the first frame. */
  datatype State = State(phase: Phase, bitCount: u8, signal: Word32, frameCount: u8,
                         firstBitCount: u8, firstCode: Word32, possiblyHeld: bool, repeatCount: u8)

  /** The statics' initial values: 20 bits and a zero code remembered, no held key. */
  function Init(): (s: State)
    ensures s.phase == Standby && !s.possiblyHeld && s.repeatCount == 0
    ensures s.firstBitCount == 20 && Value(s.firstCode) == 0
    ensures Valid(s)
  {
    ValueZeros(32);
    State(Standby, 0, Zeros(32), 0, 20, Zeros(32), false, 0)
  }

  /** A frame width the decoder accepts. */
  predicate IsWidth(c: u8) { c == 12 || c == 15 || c == 20 }

  /** The remembered width is always one of the three; while receiving, the
      frame number is 1, 2 or 3, and frame 3 has fewer bits than frame 1;
      the held-key counter never passes its limit. */
  predicate Valid(s: State)
  {
    && IsWidth(s.firstBitCount)
    && s.repeatCount <= RptCount
    && (s.phase == Receiving ==> 1 <= s.frameCount <= 3)
    && (s.phase == Receiving && s.frameCount == 3 ==> s.bitCount < s.firstBitCount)
  }

  /** The width the decode branch chooses for a bit count: 12, 15, anything else is 20. */
  function WidthOf(c: u8): (n: SircBasic.Width)
    ensures IsWidth(c) ==> SircBasic.FrameBits(n) == c as nat
  {
    if c == 12 then SircBasic.W12 else if c == 15 then SircBasic.W15 else SircBasic.W20
  }

  // ---------------------------------------------------------------------------
  // Field extraction

  /** The source's shifts and byte reads on the 32-bit buffer holding a
      complete frame in its top bits. The extension is zero for 12 and 15 bits. */
  function Extract(n: SircBasic.Width, w: Word32): (r: SircBasic.Extracted)
    ensures |r.buffer| == 32
  {
    match n
    case W12 =>
      var w1 := Shr(w, 3);
      var b2 := Shr(Byte(w1, 2), 1);
      SircBasic.Extracted(ByteValue(Byte(w1, 3)), ByteValue(b2), 0, w1[..16] + b2 + w1[24..])
    case W15 =>
      var b2 := Shr(Byte(w, 2), 1);
      SircBasic.Extracted(ByteValue(Byte(w, 3)), ByteValue(b2), 0, w[..16] + b2 + w[24..])
    case W20 =>
      var e := ByteValue(Byte(w, 3));
      var w1 := Shr(w[..24] + Zeros(8), 3);
      var b1 := Shr(Byte(w1, 1), 1);
      SircBasic.Extracted(ByteValue(Byte(w1, 2)), ByteValue(b1), e, w1[..8] + b1 + w1[16..])
  }

  /** The extraction reads the fields of the frame in the buffer's top bits,
      whatever lies below it, exactly as the fixed-width decoder defines them. */
  lemma ExtractReadsFrame(n: SircBasic.Width, stale: seq<bool>, f: seq<bool>)
    requires |f| == SircBasic.FrameBits(n) && |stale| == 32 - |f|
    ensures var x := Extract(n, stale + f);
            var y := SircBasic.Fields(n, f, 0);
            x.addr == y.addr && x.cmd == y.cmd && x.ext == y.ext
  {
    var w := stale + f;
    match n
    case W12 =>
      var w1 := Shr(w, 3);
      assert forall i | 0 <= i < 12 :: w1[i + 17] == f[i];
      assert forall i | 0 <= i < 7 :: Shr(Byte(w1, 2), 1)[i] == f[i];
      assert Shr(Byte(w1, 2), 1) == f[..7] + Zeros(1);
      assert forall i | 0 <= i < 8 :: Byte(w1, 3)[i] == (f[7..12] + Zeros(3))[i];
      assert Byte(w1, 3) == f[7..12] + Zeros(3);
      ValueZeroPad(f[..7], 1);
      ValueZeroPad(f[7..12], 3);
    case W15 =>
      assert forall i | 0 <= i < 7 :: Shr(Byte(w, 2), 1)[i] == f[i];
      assert Shr(Byte(w, 2), 1) == f[..7] + Zeros(1);
      assert Byte(w, 3) == f[7..15];
      ValueZeroPad(f[..7], 1);
    case W20 =>
      var x := w[..24] + Zeros(8);
      assert x == stale + f[..12] + Zeros(8);
      var w1 := Shr(x, 3);
      assert Byte(w, 3) == f[12..20];
      assert forall i | 0 <= i < 21 :: w1[i + 9] == (if i < 12 then f[i] else false);
      assert Shr(Byte(w1, 1), 1) == f[..7] + Zeros(1);
      assert forall i | 0 <= i < 8 :: Byte(w1, 2)[i] == (f[7..12] + Zeros(3))[i];
      assert Byte(w1, 2) == f[7..12] + Zeros(3);
      ValueZeroPad(f[..7], 1);
      ValueZeroPad(f[7..12], 3);
  }

  // ---------------------------------------------------------------------------
  // One edge

  /** A duration that is not a bit mark while receiving: a gap ends frame 1
      (if its width is acceptable) or frame 2 (if it repeats frame 1);
      anything else, and anything during frame 3, drops to standby. */
  function AtGap(s: State, d: u32): (r: State)
    requires s.phase == Receiving
    ensures r.phase == Receiving ==> IsGap(d) && r.bitCount == 0 && r.signal == Zeros(32)
    ensures r.phase == Receiving ==> s.frameCount != 3 && r.frameCount == if s.frameCount == 1 then 2 else 3
    ensures r.phase == Receiving && s.frameCount == 1 ==> IsWidth(s.bitCount) && r.firstBitCount == s.bitCount && r.firstCode == s.signal
    ensures r.phase == Receiving && s.frameCount != 1 ==> s.signal == s.firstCode && r.firstCode == s.firstCode
    ensures r.possiblyHeld == s.possiblyHeld && r.repeatCount == s.repeatCount
  {
    if s.frameCount == 3 then s.(phase := Standby)
    else if d < GapMin || d > GapMax then s.(phase := Standby)
    else if s.frameCount == 1 then
      if IsWidth(s.bitCount) then
        s.(firstBitCount := s.bitCount, bitCount := 0, firstCode := s.signal, signal := Zeros(32), frameCount := 2)
      else s.(phase := Standby)
    else if s.signal == s.firstCode then
      s.(bitCount := 0, signal := Zeros(32), frameCount := 3)
    else s.(phase := Standby)
  }

  /** A bit mark while receiving: the bit enters the buffer; frame 3 is
      decoded when it is as long as frame 1 and equal to it; in frame 1 of a
      possibly held key, a frame equal to the remembered one is a repeat. */
  function OnMark(s: State, m: Mailbox, d: u32): (r: Stepped<State>)
    requires s.phase == Receiving
    ensures r.mailbox != m ==> r.fsm.phase == Standby && !m.copying
    ensures r.mailbox != m && s.frameCount == 3 ==>
              PushMsb(s.signal, BitOf(d)) == s.firstCode && Inc8(s.bitCount) == s.firstBitCount
              && r.fsm.possiblyHeld
              && r.mailbox == Deliver(m, var x := Extract(WidthOf(s.firstBitCount), s.firstCode);
                                         IrData(x.addr, x.cmd, x.ext, false))
    ensures r.mailbox != m && s.frameCount != 3 ==> r.mailbox == MarkHeld(m) && s.repeatCount >= RptCount
  {
    var w := PushMsb(s.signal, BitOf(d));
    var c := Inc8(s.bitCount);
    if s.frameCount == 3 then
      if c == s.firstBitCount then
        if !m.copying && w == s.firstCode then
          var x := Extract(WidthOf(c), w);
          Stepped(s.(phase := Standby, bitCount := c, signal := x.buffer, possiblyHeld := true, repeatCount := 0),
                  Deliver(m, IrData(x.addr, x.cmd, x.ext, false)))
        else
          Stepped(s.(phase := Standby, bitCount := c, signal := w, repeatCount := 0), m)
      else
        Stepped(s.(bitCount := c, signal := w), m)
    else if s.frameCount == 1 && s.possiblyHeld && c == s.firstBitCount && w == s.firstCode then
      if s.repeatCount < RptCount then
        Stepped(s.(phase := Standby, bitCount := c, signal := w, repeatCount := s.repeatCount + 1), m)
      else
        Stepped(s.(phase := Standby, bitCount := c, signal := w), MarkHeld(m))
    else
      Stepped(s.(bitCount := c, signal := w), m)
  }

  /** One edge: `d` is the time since the previous edge, `m` the shared slot. */
  function Step(s: State, m: Mailbox, d: u32): (r: Stepped<State>)
    ensures r.mailbox.copying == m.copying
    ensures m.copying ==> r.mailbox == m
    ensures Valid(s) ==> Valid(r.fsm)
    ensures d < Mark0Min ==> r.fsm.phase == Standby
    ensures s.phase == Standby ==> r.mailbox == m
    ensures s.phase == Standby && d < GapMin ==> r.fsm.phase == Standby && !r.fsm.possiblyHeld
    ensures s.phase == Standby && d > GapMax ==> !r.fsm.possiblyHeld
    ensures r.mailbox != m ==> r.fsm.phase == Standby
  {
    match s.phase
    case Standby =>
      if d >= GapMin then
        Stepped(s.(phase := Receiving, bitCount := 0, signal := Zeros(32), frameCount := 1,
                   possiblyHeld := s.possiblyHeld && d <= GapMax), m)
      else
        Stepped(s.(possiblyHeld := false), m)
    case Receiving =>
      if !IsBitMark(d) then Stepped(AtGap(s, d), m)
      else OnMark(s, m, d)
  }

  /** The handler run over a sequence of edges, oldest first. */
  function Run(s: State, m: Mailbox, ds: seq<u32>): (r: Stepped<State>)
    ensures r.mailbox.copying == m.copying
    ensures m.copying ==> r.mailbox == m
    ensures Valid(s) ==> Valid(r.fsm)
    decreases |ds|
  {
    if |ds| == 0 then Stepped(s, m)
    else
      var p := Run(s, m, ds[..|ds| - 1]);
      Step(p.fsm, p.mailbox, ds[|ds| - 1])
  }

  lemma {:induction false} RunAppend(s: State, m: Mailbox, a: seq<u32>, b: seq<u32>)
    ensures var p := Run(s, m, a);
            Run(s, m, a + b) == Run(p.fsm, p.mailbox, b)
    decreases |b|
  {
    if |b| > 0 {
      RunAppend(s, m, a, b[..|b| - 1]);
      assert (a + b)[..|a + b| - 1] == a + b[..|b| - 1];
      assert (a + b)[|a + b| - 1] == b[|b| - 1];
    } else {
      assert a + b == a;
    }
  }

  lemma RunOne(s: State, m: Mailbox, d: u32)
    ensures Run(s, m, [d]) == Step(s, m, d)
  {
    assert [d][..0] == [];
  }

  // ---------------------------------------------------------------------------
  // Receiving frames

  /** `ds` is a run of bit marks carrying `bits`, one mark per bit. */
  predicate Carries(ds: seq<u32>, bits: seq<bool>)
  {
    |ds| == |bits| && forall i :: 0 <= i < |ds| ==> IsBitMark(ds[i]) && BitOf(ds[i]) == bits[i]
  }

  lemma CarriesPrefix(ds: seq<u32>, bits: seq<bool>, j: nat)
    requires Carries(ds, bits) && j < |ds|
    ensures Carries(ds[..j], bits[..j])
    ensures IsBitMark(ds[j]) && BitOf(ds[j]) == bits[j]
  {
    forall i | 0 <= i < j
      ensures IsBitMark(ds[..j][i]) && BitOf(ds[..j][i]) == bits[..j][i]
    {
      assert ds[..j][i] == ds[i];
    }
  }

  /** No bit mark among the first k of a frame can end it early: frame 2
      never ends on a mark, frame 1 only for a possibly held key, and
      frames 1 and 3 only when the count reaches the remembered width. */
  predicate Quiet(s: State, k: nat)
  {
    s.frameCount == 2 || (s.frameCount == 1 && !s.possiblyHeld) || k < s.firstBitCount as nat
  }

  /** Frame 1 with `f` arriving on top of the buffer cannot be taken for a
      held key: when it reaches the remembered width, the buffer differs
      from the remembered code. */
  predicate DiffersFromFirst(s: State, f: seq<bool>)
  {
    s.frameCount == 1 && s.firstBitCount as nat <= |f| <= 32
    && s.signal[s.firstBitCount..] + f[..s.firstBitCount] != s.firstCode
  }

  /** A bit mark that does not end the frame: one more bit in the buffer, nothing written. */
  lemma ReceiveOne(s: State, m: Mailbox, d: u32)
    requires s.phase == Receiving && s.bitCount < 32 && IsBitMark(d)
    requires Quiet(s, s.bitCount as nat + 1)
             || (s.frameCount == 1 && (s.bitCount + 1 != s.firstBitCount || PushMsb(s.signal, BitOf(d)) != s.firstCode))
    ensures Step(s, m, d) == Stepped(s.(bitCount := s.bitCount + 1, signal := PushMsb(s.signal, BitOf(d))), m)
  {
  }

  /** k quiet bit marks from the start of a frame: the buffer holds the k
      bits above what was left of it, and nothing is written. */
  lemma {:induction false} ReceivePrefix(s: State, m: Mailbox, ds: seq<u32>, f: seq<bool>)
    requires s.phase == Receiving && s.bitCount == 0
    requires |ds| <= |f| <= 32 && Carries(ds, f[..|ds|]) && (Quiet(s, |ds|) || DiffersFromFirst(s, f))
    ensures Run(s, m, ds) == Stepped(s.(bitCount := |ds| as u8, signal := s.signal[|ds|..] + f[..|ds|]), m)
    decreases |ds|
  {
    var k := |ds|;
    if k == 0 {
      assert s.signal[0..] + f[..0] == s.signal;
    } else {
      CarriesPrefix(ds, f[..k], k - 1);
      assert f[..k][..k - 1] == f[..k - 1];
      ReceivePrefix(s, m, ds[..k - 1], f);
      PrefixStep(s, m, ds, f);
    }
  }

  /** The inductive step of ReceivePrefix: the k-th bit mark on top of the first k - 1. */
  lemma PrefixStep(s: State, m: Mailbox, ds: seq<u32>, f: seq<bool>)
    requires s.phase == Receiving && s.bitCount == 0
    requires 1 <= |ds| <= |f| <= 32 && IsBitMark(ds[|ds| - 1]) && BitOf(ds[|ds| - 1]) == f[|ds| - 1]
    requires Quiet(s, |ds|) || DiffersFromFirst(s, f)
    requires var j := |ds| - 1;
             Run(s, m, ds[..j]) == Stepped(s.(bitCount := j as u8, signal := s.signal[j..] + f[..j]), m)
    ensures Run(s, m, ds) == Stepped(s.(bitCount := |ds| as u8, signal := s.signal[|ds|..] + f[..|ds|]), m)
  {
    var k := |ds|;
    var p := Run(s, m, ds[..k - 1]);
    ShiftIn(s.signal, f, k - 1);
    ReceiveOne(p.fsm, m, ds[k - 1]);
  }

  /** The buffer after a whole frame received into a cleared buffer. */
  function Framed(f: seq<bool>): (w: Word32)
    requires |f| <= 32
    ensures w[32 - |f|..] == f
  {
    Zeros(32 - |f|) + f
  }

  /** A whole frame 1 or 2 of a possible command, `f` carried by `ds`, into
      a cleared buffer: the buffer holds the frame and nothing is written. */
  lemma ReceiveQuietFrame(s: State, m: Mailbox, ds: seq<u32>, f: seq<bool>)
    requires s.phase == Receiving && s.bitCount == 0 && s.signal == Zeros(32)
    requires |f| <= 32 && Carries(ds, f) && (Quiet(s, |f|) || DiffersFromFirst(s, f))
    ensures Run(s, m, ds) == Stepped(s.(bitCount := |f| as u8, signal := Framed(f)), m)
  {
    ReceivePrefix(s, m, ds, f);
    assert f[..|f|] == f;
    assert Zeros(32)[|f|..] == Zeros(32 - |f|);
  }

  /** The last bit mark of frame 3 (or of a held-key frame 1) when the frame
      equals the remembered one. */
  lemma ReceiveLast(s: State, m: Mailbox, ds: seq<u32>, f: seq<bool>)
    requires s.phase == Receiving && s.bitCount == 0 && s.signal == Zeros(32)
    requires s.frameCount == 1 || s.frameCount == 3
    requires 1 <= |f| <= 20 && Carries(ds, f) && s.firstBitCount as nat == |f|
    ensures var p := Run(s, m, ds[..|f| - 1]);
            p == Stepped(s.(bitCount := (|f| - 1) as u8, signal := Zeros(33 - |f|) + f[..|f| - 1]), m)
            && Run(s, m, ds) == Step(p.fsm, m, ds[|f| - 1])
            && PushMsb(p.fsm.signal, BitOf(ds[|f| - 1])) == Framed(f)
            && IsBitMark(ds[|f| - 1]) && Inc8(p.fsm.bitCount) == s.firstBitCount
  {
    var k := |f|;
    CarriesPrefix(ds, f, k - 1);
    ReceivePrefix(s, m, ds[..k - 1], f);
    FramedLast(f);
  }

  /** The last bit of a frame pushed into the buffer that holds the rest of
      it completes the frame. */
  lemma FramedLast(f: seq<bool>)
    requires 1 <= |f| <= 32
    ensures Zeros(32)[|f| - 1..] + f[..|f| - 1] == Zeros(33 - |f|) + f[..|f| - 1]
    ensures PushMsb(Zeros(33 - |f|) + f[..|f| - 1], f[|f| - 1]) == Framed(f)
  {
    var k := |f|;
    assert Zeros(32)[k - 1..] == Zeros(33 - k);
    ShiftIn(Zeros(32), f, k - 1);
    assert f[..k] == f;
    assert Zeros(32)[k..] == Zeros(32 - k);
  }

  // ---------------------------------------------------------------------------
  // Whole transmissions

  /** Frame 1 is no repeat of the remembered frame: it is shorter, or its
      first bits up to the remembered width differ from the remembered code. */
  predicate NotRepeat(s: State, f: seq<bool>)
    requires |f| <= 32
  {
    |f| < s.firstBitCount as nat || Framed(f[..s.firstBitCount]) != s.firstCode
  }

  /** The state in which frame 1 of a fresh key press has been received:
      after a long silence, with no held key pending, or with a frame that
      is not the remembered one. */
  lemma FirstFrame(s: State, m: Mailbox, gap: u32, ds: seq<u32>, f: seq<bool>)
    requires s.phase == Standby && gap >= GapMin
    requires |f| <= 32 && Carries(ds, f)
    requires gap > GapMax || !s.possiblyHeld || NotRepeat(s, f)
    ensures Run(s, m, [gap] + ds)
            == Stepped(s.(phase := Receiving, bitCount := |f| as u8, signal := Framed(f), frameCount := 1,
                          possiblyHeld := s.possiblyHeld && gap <= GapMax), m)
  {
    RunAppend(s, m, [gap], ds);
    RunOne(s, m, gap);
    var s1 := s.(phase := Receiving, bitCount := 0, signal := Zeros(32), frameCount := 1,
                 possiblyHeld := s.possiblyHeld && gap <= GapMax);
    if s1.possiblyHeld && s.firstBitCount as nat <= |f| {
      var c := s.firstBitCount as nat;
      assert Zeros(32)[c..] == Zeros(32 - c);
      assert DiffersFromFirst(s1, f);
    }
    ReceiveQuietFrame(s1, m, ds, f);
  }

  /** A gap after frame 1 of an acceptable width, then frame 2: the buffer
      holds frame 2 and frame 1 is remembered. */
  lemma SecondFrame(s: State, m: Mailbox, gap: u32, ds: seq<u32>, f: seq<bool>)
    requires s.phase == Receiving && s.frameCount == 1 && IsWidth(s.bitCount)
    requires IsGap(gap) && |f| <= 32 && Carries(ds, f)
    ensures Run(s, m, [gap] + ds)
            == Stepped(s.(bitCount := |f| as u8, signal := Framed(f), frameCount := 2,
                          firstBitCount := s.bitCount, firstCode := s.signal), m)
  {
    RunAppend(s, m, [gap], ds);
    RunOne(s, m, gap);
    var s2 := s.(bitCount := 0, signal := Zeros(32), frameCount := 2, firstBitCount := s.bitCount, firstCode := s.signal);
    ReceiveQuietFrame(s2, m, ds, f);
  }

  /** A gap after a frame 2 equal to frame 1, then frame 3 equal to both:
      the command is delivered with its fields read from the frame, unless
      the consumer is copying, and a held key becomes possible. */
  lemma ThirdFrame(s: State, m: Mailbox, gap: u32, ds: seq<u32>, n: SircBasic.Width, f: seq<bool>)
    requires s.phase == Receiving && s.frameCount == 2 && s.signal == s.firstCode
    requires s.firstBitCount as nat == SircBasic.FrameBits(n) == |f| && s.firstCode == Framed(f)
    requires IsGap(gap) && Carries(ds, f)
    ensures var r := Run(s, m, [gap] + ds);
            var y := SircBasic.Fields(n, f, 0);
            r.fsm.phase == Standby && r.fsm.repeatCount == 0
            && r.fsm.possiblyHeld == (s.possiblyHeld || !m.copying)
            && r.fsm.firstCode == s.firstCode && r.fsm.firstBitCount == s.firstBitCount
            && r.mailbox == Deliver(m, IrData(y.addr, y.cmd, y.ext, false))
  {
    RunAppend(s, m, [gap], ds);
    RunOne(s, m, gap);
    var s3 := s.(bitCount := 0, signal := Zeros(32), frameCount := 3);
    ReceiveLast(s3, m, ds, f);
    assert WidthOf(s.firstBitCount) == n;
    ExtractReadsFrame(n, Zeros(32 - |f|), f);
  }

  /** A key press from standby after a long silence, with no held key
      pending, or with a frame other than the remembered one: three frames
      of the same N-bit code, separated by gaps, deliver the command the
      frame carries, with the extension zero for 12 and 15 bits, unless the
      consumer is copying. */
  lemma {:induction false} DecodeTransmission(s: State, m: Mailbox, g1: u32, ds1: seq<u32>, g2: u32, ds2: seq<u32>,
                                              g3: u32, ds3: seq<u32>, n: SircBasic.Width, f: seq<bool>)
    requires s.phase == Standby && g1 >= GapMin
    requires IsGap(g2) && IsGap(g3) && |f| == SircBasic.FrameBits(n)
    requires g1 > GapMax || !s.possiblyHeld || NotRepeat(s, f)
    requires Carries(ds1, f) && Carries(ds2, f) && Carries(ds3, f)
    ensures var r := Run(s, m, [g1] + ds1 + [g2] + ds2 + [g3] + ds3);
            var y := SircBasic.Fields(n, f, 0);
            r.fsm.phase == Standby && r.fsm.possiblyHeld == ((s.possiblyHeld && g1 <= GapMax) || !m.copying)
            && r.fsm.repeatCount == 0 && r.fsm.firstCode == Framed(f) && r.fsm.firstBitCount as nat == |f|
            && r.mailbox == Deliver(m, IrData(y.addr, y.cmd, y.ext, false))
  {
    var a := [g1] + ds1;
    var b := [g2] + ds2;
    var c := [g3] + ds3;
    assert [g1] + ds1 + [g2] + ds2 + [g3] + ds3 == a + b + c;
    RunAppend(s, m, a, b);
    RunAppend(s, m, a + b, c);
    FirstFrame(s, m, g1, ds1, f);
    var p1 := Run(s, m, a);
    SecondFrame(p1.fsm, m, g2, ds2, f);
    var p2 := Run(p1.fsm, m, b);
    ThirdFrame(p2.fsm, m, g3, ds3, n, f);
  }

  /** While a held key is possible, a gap of ordinary length and a frame
      equal to the remembered one is a repeat: the first RptCount are only
      counted, later ones re-announce the previous command as held. */
  lemma HeldFrame(s: State, m: Mailbox, gap: u32, ds: seq<u32>, f: seq<bool>)
    requires s.phase == Standby && s.possiblyHeld && IsGap(gap)
    requires IsWidth(s.firstBitCount) && |f| == s.firstBitCount as nat && s.firstCode == Framed(f)
    requires Carries(ds, f)
    ensures var r := Run(s, m, [gap] + ds);
            r.fsm.phase == Standby && r.fsm.possiblyHeld
            && r.fsm.firstCode == s.firstCode && r.fsm.firstBitCount == s.firstBitCount
            && r.fsm.repeatCount == (if s.repeatCount < RptCount then s.repeatCount + 1 else s.repeatCount)
            && r.mailbox == (if s.repeatCount < RptCount then m else MarkHeld(m))
  {
    RunAppend(s, m, [gap], ds);
    RunOne(s, m, gap);
    var s1 := s.(phase := Receiving, bitCount := 0, signal := Zeros(32), frameCount := 1);
    ReceiveLast(s1, m, ds, f);
  }

  /** The edges of one held repeat: an ordinary gap, then the marks of `f`. */
  predicate RepeatEdges(t: seq<u32>, f: seq<bool>)
  {
    |t| > 0 && IsGap(t[0]) && Carries(t[1..], f)
  }

  /** After a decoded key press, a key held through six more frames: the
      first RptCount are swallowed and the sixth re-announces the command
      as held. */
  lemma {:induction false} SixthHeldFrameReportsHeld(s: State, m: Mailbox, f: seq<bool>, t1: seq<u32>, t2: seq<u32>,
                                                     t3: seq<u32>, t4: seq<u32>, t5: seq<u32>, t6: seq<u32>)
    requires s.phase == Standby && s.possiblyHeld && s.repeatCount == 0
    requires IsWidth(s.firstBitCount) && |f| == s.firstBitCount as nat && s.firstCode == Framed(f)
    requires RepeatEdges(t1, f) && RepeatEdges(t2, f) && RepeatEdges(t3, f)
    requires RepeatEdges(t4, f) && RepeatEdges(t5, f) && RepeatEdges(t6, f)
    ensures Run(s, m, t1 + t2 + t3 + t4 + t5).mailbox == m
    ensures Run(s, m, t1 + t2 + t3 + t4 + t5 + t6).mailbox == MarkHeld(m)
  {
    HeldEdges(s, m, t1, f);
    var p1 := Run(s, m, t1);
    HeldEdges(p1.fsm, m, t2, f);
    RunAppend(s, m, t1, t2);
    var p2 := Run(s, m, t1 + t2);
    HeldEdges(p2.fsm, m, t3, f);
    RunAppend(s, m, t1 + t2, t3);
    var p3 := Run(s, m, t1 + t2 + t3);
    HeldEdges(p3.fsm, m, t4, f);
    RunAppend(s, m, t1 + t2 + t3, t4);
    var p4 := Run(s, m, t1 + t2 + t3 + t4);
    HeldEdges(p4.fsm, m, t5, f);
    RunAppend(s, m, t1 + t2 + t3 + t4, t5);
    var p5 := Run(s, m, t1 + t2 + t3 + t4 + t5);
    HeldEdges(p5.fsm, m, t6, f);
    RunAppend(s, m, t1 + t2 + t3 + t4 + t5, t6);
  }

  /** HeldFrame for the edges of one repeat taken as a whole. */
  lemma HeldEdges(s: State, m: Mailbox, t: seq<u32>, f: seq<bool>)
    requires s.phase == Standby && s.possiblyHeld && RepeatEdges(t, f)
    requires IsWidth(s.firstBitCount) && |f| == s.firstBitCount as nat && s.firstCode == Framed(f)
    ensures var r := Run(s, m, t);
            r.fsm.phase == Standby && r.fsm.possiblyHeld
            && r.fsm.firstCode == s.firstCode && r.fsm.firstBitCount == s.firstBitCount
            && r.fsm.repeatCount == (if s.repeatCount < RptCount then s.repeatCount + 1 else s.repeatCount)
            && r.mailbox == (if s.repeatCount < RptCount then m else MarkHeld(m))
  {
    assert t == [t[0]] + t[1..];
    HeldFrame(s, m, t[0], t[1..], f);
  }

  /** Frame 2 must repeat frame 1: if its buffer differs, the next gap
      drops to standby and the frame group is abandoned. */
  lemma SecondFrameMustMatch(s: State, m: Mailbox, gap: u32)
    requires s.phase == Receiving && s.frameCount == 2 && s.signal != s.firstCode && !IsBitMark(gap)
    ensures Step(s, m, gap) == Stepped(s.(phase := Standby), m)
  {
  }

  /** Frame 1 must have an acceptable width: any other bit count at the
      gap drops to standby. */
  lemma FirstFrameWidth(s: State, m: Mailbox, gap: u32)
    requires s.phase == Receiving && s.frameCount == 1 && !IsWidth(s.bitCount) && !IsBitMark(gap)
    ensures Step(s, m, gap) == Stepped(s.(phase := Standby), m)
  {
  }

  // ---------------------------------------------------------------------------
  // Encoding and decoding agree

  /** A key press of a remote sending `cmd`, `addr` and `ext` at width n is
      decoded to exactly those fields (extension zero below 20 bits). */
  lemma RoundTrip(s: State, m: Mailbox, g1: u32, ds1: seq<u32>, g2: u32, ds2: seq<u32>, g3: u32, ds3: seq<u32>,
                  n: SircBasic.Width, cmd: nat, addr: nat, ext: nat)
    requires s.phase == Standby && g1 > GapMax && IsGap(g2) && IsGap(g3) && !m.copying
    requires cmd < 0x80 && ext < 0x100
    requires if n == SircBasic.W15 then addr < 0x100 else addr < 0x20
    requires var f := SircBasic.Encode(n, cmd, addr, ext);
             Carries(ds1, f) && Carries(ds2, f) && Carries(ds3, f)
    ensures var r := Run(s, m, [g1] + ds1 + [g2] + ds2 + [g3] + ds3);
            r.mailbox.available
            && r.mailbox.data == IrData(addr, cmd, if n == SircBasic.W20 then ext else 0, false)
  {
    var f := SircBasic.Encode(n, cmd, addr, ext);
    DecodeTransmission(s, m, g1, ds1, g2, ds2, g3, ds3, n, f);
    SircBasic.FieldsOfEncode(n, cmd, addr, ext, 0);
  }
}
