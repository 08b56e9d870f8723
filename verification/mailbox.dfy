/** The single-slot mailbox shared by the edge handler (producer) and the
    polling consumer: the static members `_irData`, `_irDataAvailable` and
    `_irCopyingData` of the decoder class, and its two `dataAvailable`
    operations.

    The consumer's copy is split into its two halves so that the model can
    place producer steps inside the copy window: `BeginCopy` raises the
    copying flag, `FinishCopy` copies the data out and lowers both flags.
 */
module Mailbox {
  import opened Bits

  /** One decoded command. `ext` is written only by the 20-bit SIRC decoders. */
  datatype IrData = IrData(addr: u16, cmd: u8, ext: u8, keyHeld: bool)

  /** The shared slot: the last decoded command, whether it is pending, and
      whether the consumer is copying it out right now. */
  datatype Mailbox = Mailbox(data: IrData, available: bool, copying: bool)

  /** What one producer step leaves behind: the protocol's new FSM record and the mailbox. */
  datatype Stepped<S> = Stepped(fsm: S, mailbox: Mailbox)

  /** The result of a consumer call: the returned flag, the caller's
      out-parameter after the call, and the mailbox after the call. */
  datatype Polled = Polled(got: bool, out: IrData, mailbox: Mailbox)

  /** Static storage before any edge: nothing pending, nobody copying, data zeroed. */
  function Init(): (m: Mailbox)
    ensures !m.available && !m.copying
    ensures m.data == IrData(0, 0, 0, false)
  {
    Mailbox(IrData(0, 0, 0, false), false, false)
  }

  // ---------------------------------------------------------------------------
  // Producer side: the two ways an edge handler writes the slot

  /** A fresh decode: the fields are replaced and the command becomes pending,
      unless the consumer is copying, in which case the slot is left alone. */
  function Deliver(m: Mailbox, d: IrData): (r: Mailbox)
    ensures r.copying == m.copying
    ensures m.copying ==> r == m
    ensures !m.copying ==> r.data == d && r.available
  {
    if m.copying then m else m.(data := d, available := true)
  }

  /** A held key: the previous command is re-announced with `keyHeld` set,
      its address, command and extension unchanged, unless the consumer is copying. */
  function MarkHeld(m: Mailbox): (r: Mailbox)
    ensures r.copying == m.copying
    ensures m.copying ==> r == m
    ensures !m.copying ==> r.available && r.data == m.data.(keyHeld := true)
  {
    if m.copying then m else m.(data := m.data.(keyHeld := true), available := true)
  }

  // ---------------------------------------------------------------------------
  // Consumer side

  /** First half of `dataAvailable(out)` when a command is pending: tell the
      edge handler not to write the slot. */
  function BeginCopy(m: Mailbox): (r: Mailbox)
    requires m.available
    ensures r.copying && r.available && r.data == m.data
  {
    m.(copying := true)
  }

  /** Second half: copy the slot out, then lower the pending and copying flags. */
  function FinishCopy(m: Mailbox): (r: Polled)
    ensures r.got && r.out == m.data
    ensures r.mailbox == Mailbox(m.data, false, false)
  {
    Polled(true, m.data, m.(available := false, copying := false))
  }

  /** `dataAvailable(irData)`: move the pending command, if any, to the caller. */
  function Read(m: Mailbox, out: IrData): (r: Polled)
    ensures r.got == m.available
    ensures r.got ==> r.out == m.data && r.mailbox == Mailbox(m.data, false, false)
    ensures !r.got ==> r.out == out && r.mailbox == m
  {
    if m.available then FinishCopy(BeginCopy(m)) else Polled(false, out, m)
  }

  /** `dataAvailable()`: drop the pending command, if any, without copying it. */
  function Discard(m: Mailbox): (r: Polled)
    ensures r.got == m.available
    ensures r.mailbox == m.(available := false)
  {
    Polled(m.available, m.data, m.(available := false))
  }

  // ---------------------------------------------------------------------------
  // Properties of the slot

  /** Whatever the consumer passed in, a read returns with the copying flag lowered
      and nothing pending, provided it started outside a copy. */
  lemma ReadLeavesSlotEmpty(m: Mailbox, out: IrData)
    requires !m.copying
    ensures !Read(m, out).mailbox.copying
    ensures !Read(m, out).mailbox.available
  {
  }

  /** Two reads with no producer step between them: the second finds nothing
      and leaves the caller's copy of the first result in place. */
  lemma SecondReadFindsNothing(m: Mailbox, out: IrData)
    ensures var first := Read(m, out);
            var second := Read(first.mailbox, first.out);
            !second.got && second.out == first.out && second.mailbox == first.mailbox
  {
  }

  /** The same for the discarding variant, which never touches the data or the copying flag. */
  lemma SecondDiscardFindsNothing(m: Mailbox)
    ensures var first := Discard(m);
            var second := Discard(first.mailbox);
            !second.got && second.mailbox == first.mailbox
            && first.mailbox.data == m.data && first.mailbox.copying == m.copying
  {
  }

  /** A delivered command is exactly what the next read returns, and the slot
      holds one command only: of two deliveries the later one is read. */
  lemma DeliverThenRead(m: Mailbox, d1: IrData, d2: IrData, out: IrData)
    requires !m.copying
    ensures Read(Deliver(m, d1), out) == Polled(true, d1, Mailbox(d1, false, false))
    ensures Read(Deliver(Deliver(m, d1), d2), out).out == d2
  {
  }

  /** A held-key announcement reads back as the previous command with `keyHeld` set. */
  lemma MarkHeldThenRead(m: Mailbox, out: IrData)
    requires !m.copying
    ensures Read(MarkHeld(m), out).got
    ensures Read(MarkHeld(m), out).out == m.data.(keyHeld := true)
  {
  }
}
