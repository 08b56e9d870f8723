/** The decoder object (`IRsmallDecoder` in src/IRsmallDecoder.h): exactly
    one protocol's edge handler, chosen when the library is compiled, and the
    shared mailbox it writes and the application reads.

    Each edge runs the compiled handler once; `Enable` runs it twice in a
    row, as the `enable()` method does, to force the handler into standby.
 */
module Decoder {
  import opened Bits
  import opened Mailbox
  import Nec
  import Rc5
  import SircBasic
  import SircMulti
  import Samsung
  import Samsung32

  /** The compiled-in protocol together with its handler's static variables. */
  datatype Handler =
    | NecHandler(variant: Nec.Variant, nec: Nec.State)
    | Rc5Handler(rc5: Rc5.State)
    | SircHandler(width: SircBasic.Width, sirc: SircBasic.State)
    | SircMultiHandler(multi: SircMulti.State)
    | SamsungHandler(samsung: Samsung.State)
    | Samsung32Handler(samsung32: Samsung32.State)

  /** Which protocol a handler decodes, ignoring its state. */
  datatype Protocol = NEC | NECx | RC5 | SIRC(width: SircBasic.Width) | SIRCmulti | SAMSUNG | SAMSUNG32

  function ProtocolOf(h: Handler): Protocol
  {
    match h
    case NecHandler(v, _) => if v == Nec.Standard then NEC else NECx
    case Rc5Handler(_) => RC5
    case SircHandler(n, _) => SIRC(n)
    case SircMultiHandler(_) => SIRCmulti
    case SamsungHandler(_) => SAMSUNG
    case Samsung32Handler(_) => SAMSUNG32
  }

  /** The handler of a protocol with its statics at their initial values. */
  function Create(p: Protocol): (h: Handler)
    ensures ProtocolOf(h) == p && Idle(h) && Wf(h)
  {
    match p
    case NEC => NecHandler(Nec.Standard, Nec.Init())
    case NECx => NecHandler(Nec.Extended, Nec.Init())
    case RC5 => Rc5Handler(Rc5.Init())
    case SIRC(n) => SircHandler(n, SircBasic.Init(n))
    case SIRCmulti => SircMultiHandler(SircMulti.Init())
    case SAMSUNG => SamsungHandler(Samsung.Init())
    case SAMSUNG32 => Samsung32Handler(Samsung32.Init())
  }

  /** The handler's state invariant: what every protocol keeps between edges. */
  predicate Wf(h: Handler)
  {
    match h
    case NecHandler(_, s) => Nec.Valid(s)
    case Rc5Handler(s) => Rc5.Valid(s)
    case SircHandler(n, s) => SircBasic.Valid(n, s)
    case SircMultiHandler(s) => SircMulti.Valid(s)
    case SamsungHandler(s) => Samsung.Valid(s)
    case Samsung32Handler(s) => Samsung32.Valid(s)
  }

  /** The handler is in standby, waiting for a gap. */
  predicate Idle(h: Handler)
  {
    match h
    case NecHandler(_, s) => s.phase == Nec.Standby
    case Rc5Handler(s) => s.phase == Rc5.Standby
    case SircHandler(_, s) => s.phase == SircBasic.Standby
    case SircMultiHandler(s) => s.phase == SircMulti.Standby
    case SamsungHandler(s) => s.phase == Samsung.Standby
    case Samsung32Handler(s) => s.phase == Samsung32.Standby
  }

  /** The shortest interval any handler accepts outside standby: the lower
      bound of its bit-mark (RC5: half-bit) window. */
  function ShortestMark(p: Protocol): (r: u32)
    ensures r > 0
  {
    match p
    case NEC => Nec.Mark0Min
    case NECx => Nec.Mark0Min
    case RC5 => Rc5.ShortMin
    case SIRC(_) => SircBasic.Mark0Min
    case SIRCmulti => SircMulti.Mark0Min
    case SAMSUNG => Samsung.Mark0Min
    case SAMSUNG32 => Samsung32.Mark0Min
  }

  /** One run of `irISR`: the compiled handler sees one edge. */
  function Step(h: Handler, m: Mailbox, e: Edge): (r: Stepped<Handler>)
    requires Wf(h)
    ensures Wf(r.fsm) && ProtocolOf(r.fsm) == ProtocolOf(h)
    ensures r.mailbox.copying == m.copying
    ensures m.copying ==> r.mailbox == m
    ensures e.duration < ShortestMark(ProtocolOf(h)) ==> Idle(r.fsm)
  {
    match h
    case NecHandler(v, s) =>
      var r := Nec.Step(v, s, m, e.duration);
      Stepped(NecHandler(v, r.fsm), r.mailbox)
    case Rc5Handler(s) =>
      var r := Rc5.Step(s, m, e);
      Stepped(Rc5Handler(r.fsm), r.mailbox)
    case SircHandler(n, s) =>
      var r := SircBasic.Step(n, s, m, e.duration);
      Stepped(SircHandler(n, r.fsm), r.mailbox)
    case SircMultiHandler(s) =>
      var r := SircMulti.Step(s, m, e.duration);
      Stepped(SircMultiHandler(r.fsm), r.mailbox)
    case SamsungHandler(s) =>
      var r := Samsung.Step(s, m, e.duration);
      Stepped(SamsungHandler(r.fsm), r.mailbox)
    case Samsung32Handler(s) =>
      var r := Samsung32.Step(s, m, e.duration);
      Stepped(Samsung32Handler(r.fsm), r.mailbox)
  }

  /** The handler run over a sequence of edges, oldest first. */
  function Run(h: Handler, m: Mailbox, es: seq<Edge>): (r: Stepped<Handler>)
    requires Wf(h)
    ensures Wf(r.fsm) && ProtocolOf(r.fsm) == ProtocolOf(h)
    ensures r.mailbox.copying == m.copying
    ensures m.copying ==> r.mailbox == m
    decreases |es|
  {
    if |es| == 0 then Stepped(h, m)
    else
      var p := Run(h, m, es[..|es| - 1]);
      Step(p.fsm, p.mailbox, es[|es| - 1])
  }

  /** `enable()`: the handler runs twice in a row. The first run sees
      whatever time has passed since the last edge and may complete a frame;
      the second comes microseconds later, and an interval that short sends
      every protocol's handler to standby. */
  function Enable(h: Handler, m: Mailbox, first: Edge, second: Edge): (r: Stepped<Handler>)
    requires Wf(h)
    ensures Wf(r.fsm) && ProtocolOf(r.fsm) == ProtocolOf(h)
    ensures second.duration < ShortestMark(ProtocolOf(h)) ==> Idle(r.fsm)
    ensures m.copying ==> r.mailbox == m
  {
    var p := Step(h, m, first);
    Step(p.fsm, p.mailbox, second)
  }

  /** Edges that arrive while the consumer is copying cannot change the
      slot: the copy that completes returns the data present when it began,
      and the slot is left empty, whatever the handler decoded meanwhile. */
  lemma {:induction false} ReadDuringEdges(h: Handler, m: Mailbox, es: seq<Edge>)
    requires Wf(h) && m.available && !m.copying
    ensures var during := Run(h, BeginCopy(m), es);
            var r := FinishCopy(during.mailbox);
            r.got && r.out == m.data && r.mailbox == Mailbox(m.data, false, false)
  {
  }
}
