# IRsmallDecoder decoding engine in Dafny

IRsmallDecoder is an Arduino library for infrared remote controls. One
protocol is compiled in at a time. An interrupt handler (`irISR`) is called on
every edge of the IR receiver's output. It measures the time since the
previous edge and feeds that duration to a protocol-specific finite state
machine. When a frame is complete, the handler writes the decoded address,
command, extension and "key held" flag into a single-slot mailbox and raises
a pending flag. The sketch polls `dataAvailable`, which copies the slot out and
clears the flag. While the copy is in progress a copying flag is raised, and
no handler may write the slot.

This project models that engine as pure functions:

- `Bits`: fixed-width registers as `seq<bool>`, with element i as bit i. It
  covers the shift-in of a bit at the top (`>>= 1` then `|= 0x80`), byte
  views of a multi-byte register, bitwise not and or, 8-bit counter
  wrap-around, 32-bit modular subtraction, and the value of a bit string read
  LSB-first or MSB-first.
- `Mailbox`: the shared slot (`_irData`, `_irDataAvailable`,
  `_irCopyingData`), the two consumer calls, and the only two ways a handler
  writes the slot.
- `Nec`, `Rc5`, `SircBasic`, `SircMulti`, `Samsung` and `Samsung32`: one
  module per protocol. Each has its static variables as a state record, a
  `Step(state, mailbox, duration)` for one edge, and `Run` for a sequence of
  edges.
- Each protocol module also has an encoder of the transmitted bits, used as
  an independent reference. Lemmas say what a whole transmission does to the
  mailbox.
- `Decoder`: the protocol choice as a datatype, one `Step` that dispatches to
  the compiled-in machine, and `enable()`'s two back-to-back steps.

Every step that writes the slot goes through `Mailbox.Deliver` (a fresh
decode) or `Mailbox.MarkHeld` (a held key re-announced). Both are no-ops while
the copying flag is set. That is how each handler's `!_irCopyingData` guards
are modelled.

Durations are `u32` microseconds. Threshold expressions with floating-point
factors (`* 0.7`, `* 1.3`, ...) are folded to the integer constants the
compiler produces.

## Model

| member | source | states |
|---|---|---|
| Mailbox.Init | src/IRsmallDecoder.h:84-86 | at start-up nothing is pending and no copy is in progress |
| Mailbox.Deliver | src/IRsmallD_NEC.h:125-136 | a fresh decode replaces the data and raises the pending flag, unless a copy is in progress, in which case the slot is untouched |
| Mailbox.MarkHeld | src/IRsmallD_NEC.h:102-105 | a held key keeps the last address and command, sets keyHeld and raises the pending flag, and is dropped while a copy is in progress |
| Mailbox.BeginCopy | src/IRsmallDecoder.h:134-136 | raising the copying flag keeps the data and the pending flag |
| Mailbox.FinishCopy | src/IRsmallDecoder.h:136-139 | the copy hands back exactly the slot's data and leaves the slot not pending and not copying |
| Mailbox.Read | src/IRsmallDecoder.h:133-141 | `dataAvailable(out)` returns true exactly when something was pending; then out is the slot's data and the slot is cleared; otherwise out and the slot are unchanged |
| Mailbox.Discard | src/IRsmallDecoder.h:149-154 | `dataAvailable()` returns true exactly when something was pending and only clears the pending flag; the data and the copying flag are untouched |
| Mailbox.ReadLeavesSlotEmpty | src/IRsmallDecoder.h:135-138 | after a read returns, the copying flag is down and nothing is pending |
| Mailbox.SecondReadFindsNothing | src/IRsmallDecoder.h:134-137 | two reads with no handler step between them: the second returns false and leaves out unchanged |
| Mailbox.SecondDiscardFindsNothing | src/IRsmallDecoder.h:150-151 | two discards with no handler step between them: the second returns false |
| Mailbox.DeliverThenRead | src/IRsmallDecoder.h:133-139 | a read after a delivery returns that delivery; of two deliveries before a read, the later one wins |
| Mailbox.MarkHeldThenRead | src/IRsmallDecoder.h:133-139 | a read after a held-key announcement returns the previous data with keyHeld set |
| Nec.Init | src/IRsmallD_NEC.h:74-76 | the machine starts in standby with no held key and a zero repeat count |
| Nec.Address | src/IRsmallD_NEC.h:126-132 | the low byte of the address is the value of byte 0; for NEC the address is below 256, and for NECx its high byte is the value of byte 1 |
| Nec.Decode | src/IRsmallD_NEC.h:125-135 | the command is byte 2 of the register, keyHeld is false, and the extension is kept |
| Nec.Step | src/IRsmallD_NEC.h:85-143 | one edge: the slot is untouched while copying; a duration below 787 ends in standby from any state; bitCount stays below 32 while receiving; the slot is only ever delivered to or marked held |
| Nec.Run | src/IRsmallD_NEC.h:85-143 | a sequence of edges keeps the state invariant and never touches the slot while copying |
| Nec.RunAppend | src/IRsmallD_NEC.h:85-143 | running two edge sequences one after the other is the same as running their concatenation |
| Nec.RunPair | src/IRsmallD_NEC.h:85-143 | running two edges is two steps |
| Nec.WindowsDisjoint | src/IRsmallD_NEC.h:52-61 | the repeat-mark window [1968, 3616] and the leading-mark window [3617, 6581] are disjoint and adjacent; a bit mark is never a leading mark or a gap |
| Nec.ReceivePrefix | src/IRsmallD_NEC.h:112-123 | fewer than 32 bit marks from the start of a frame shift exactly those bits in at the top, LSB-first, whatever the register held before |
| Nec.CarriesPrefix | src/IRsmallD_NEC.h:112-116 | a prefix of a mark sequence carries the same prefix of bits |
| Nec.ReceiveOne | src/IRsmallD_NEC.h:112-116 | one bit mark while receiving shifts the register right by one, sets bit 31 iff the duration is at least 1575, and adds one to bitCount |
| Nec.ReceiveFrame | src/IRsmallD_NEC.h:111-142 | 32 bit marks with an accepted address leave exactly the transmitted bits in the register; the slot gets the decode iff byte 2 is the complement of byte 3 |
| Nec.DecodeTransmission | src/IRsmallD_NEC.h:85-142 | a gap, a leading mark and 32 bit marks deliver the decoded frame iff the address check (NEC only) and the command check pass, and end in standby; a delivered frame leaves possiblyHeld set and repeatCount 0 |
| Nec.AddressMismatchAborts | src/IRsmallD_NEC.h:117-121 | in standard NEC, an address byte that is not the complement of byte 1 sends the machine to standby at bit 16 and leaves the slot untouched |
| Nec.StandbyIgnoresMarks | src/IRsmallD_NEC.h:86-92 | for NEC and NECx alike, durations of at most 34256 in standby keep the machine in standby and never touch the slot |
| Nec.NecRoundTrip | src/IRsmallD_NEC.h:117-133 | an encoded NEC frame passes both complement checks and decodes to its own address and command |
| Nec.NecxRoundTrip | src/IRsmallD_NEC.h:124-133 | an encoded NECx frame passes the command check and decodes to its own 16-bit address and command |
| Nec.NecAcceptsOnlyTransmissions | src/IRsmallD_NEC.h:117-133 | every register that passes both NEC checks is the encoding of the address and command it decodes to |
| Nec.NecxAcceptsOnlyTransmissions | src/IRsmallD_NEC.h:124-133 | every register that passes the NECx command check is the encoding of the 16-bit address and command it decodes to |
| Nec.RepeatSequence | src/IRsmallD_NEC.h:87-107 | after a decoded frame, a gap and a repeat mark only count while repeatCount is below 2; later ones re-announce the last command as held |
| Nec.RepeatWithoutFrameIgnored | src/IRsmallD_NEC.h:87-107 | a repeat mark with no held key possible, or after too long a gap, leaves the slot and repeatCount unchanged |
| Nec.ThirdRepeatReportsHeld | src/IRsmallD_NEC.h:100-105 | from the state a delivered frame leaves (possiblyHeld set, repeatCount 0), the first two repeat marks are ignored and the third reports the key as held |
| Rc5.Init | src/IRsmallD_RC5.h:48-52 | the machine starts in standby with a zero repeat count and toggle |
| Rc5.Decode | src/IRsmallD_RC5.h:150-153 | the address is below 32 and the command below 128 |
| Rc5.EncodeDecode | src/IRsmallD_RC5.h:150-151 | a 14-bit code built from a toggle, an address and a command has its start bit set, carries the toggle, and decodes to the same address and command |
| Rc5.DecodeEncode | src/IRsmallD_RC5.h:150-151 | every 14-bit code with its start bit set is the encoding of its own toggle, address and command |
| Rc5.DecodeFrame | src/IRsmallD_RC5.h:139-161 | while copying nothing changes but the phase; otherwise a repeat within the period with the same toggle counts or is announced as held, and anything else is delivered with repeatCount 0 |
| Rc5.Choice | src/IRsmallD_RC5.h:115-137 | a choice pseudo-state either decodes at bit 13 or moves to the in-sync state of the opposite level without touching the slot |
| Rc5.FromMiddle | src/IRsmallD_RC5.h:70-82 | from an in-sync state, a duration outside [445, 2222] goes to standby without touching the slot |
| Rc5.FromBoundary | src/IRsmallD_RC5.h:84-90 | from an off-sync state, anything that is not short goes to standby without touching the slot |
| Rc5.Step | src/IRsmallD_RC5.h:59-164 | one edge: the slot, prevToggle and lastBitTime are untouched while copying; a duration below 445 ends in standby; bitCount stays at most 13 and the register within its bit count |
| Rc5.Run | src/IRsmallD_RC5.h:59-164 | a sequence of edges keeps the state invariant and never touches the slot while copying |
| Rc5.RunAppend | src/IRsmallD_RC5.h:59-164 | running two edge sequences one after the other is the same as running their concatenation |
| Rc5.RunOne | src/IRsmallD_RC5.h:59-164 | running one edge is one step |
| Rc5.RunPair | src/IRsmallD_RC5.h:59-164 | running two edges is two steps |
| Rc5.WindowsDisjoint | src/IRsmallD_RC5.h:36-39 | the short window [445, 1333] and the long window (1333, 2222] are disjoint, together cover [445, 2222], and lie below the start gap |
| Rc5.BadIntervalAborts | src/IRsmallD_RC5.h:73-76 | an interval outside its state's window sends the machine to standby and leaves the slot untouched |
| Rc5.GapStartsFrame | src/IRsmallD_RC5.h:61-67 | a gap of at least 71120 clears the register and bitCount and enters roseInSync |
| Rc5.ManchesterSplit | src/IRsmallD_RC5.h:70-137 | a Manchester edge sequence for n bits splits into one for the first n-1 bits and the one or two edges of the last bit |
| Rc5.Advance | src/IRsmallD_RC5.h:70-137 | the edges of one mid-frame bit push that bit at the bottom of the register and move to the in-sync state of the next bit |
| Rc5.Finish | src/IRsmallD_RC5.h:115-161 | the edges of the 13th bit push it, synthesise the 14th bit, and decode the complete code |
| Rc5.ReceiveBits | src/IRsmallD_RC5.h:70-137 | up to 13 bits of Manchester edges leave their MSB-first value in the register and one less than their number in bitCount |
| Rc5.Extend | src/IRsmallD_RC5.h:70-137 | one more bit of Manchester edges extends the received prefix by that bit |
| Rc5.PushMsbCode | src/IRsmallD_RC5.h:71-94 | pushing a bit at the bottom of the register appends it to the MSB-first reading |
| Rc5.MsbPrefixBound | src/IRsmallD_RC5.h:47 | a register of at most 12 pushed bits stays below 0x1000 |
| Rc5.ReceiveFrame | src/IRsmallD_RC5.h:61-161 | a start gap and the Manchester edges of a 14-bit frame with its start bit set leave that code in the register, in [0x2000, 0x4000), and decode it |
| Rc5.LastTwoBits | src/IRsmallD_RC5.h:117-131 | the 14-bit code is the 12-bit prefix with the 13th bit and the synthesised 14th bit pushed in |
| Rc5.MsbStartBit | src/IRsmallD_RC5.h:47 | a 14-bit frame with its start bit set reads as a code in [0x2000, 0x4000) |
| Rc5.MsbLeading | src/IRsmallD_RC5.h:47 | a bit string with its first bit set reads MSB-first as at least 2^(n-1) |
| Rc5.TransmissionDelivers | src/IRsmallD_RC5.h:61-161 | a start gap and the Manchester edges of an encoded frame that is not a repeat deliver its address and command and reset repeatCount |
| Rc5.MsbTopBit | src/IRsmallD_RC5.h:47 | a code in [0x2000, 0x4000) has its start bit set |
| Rc5.MsbNotLeading | src/IRsmallD_RC5.h:47 | a bit string with its first bit clear reads MSB-first as less than 2^(n-1) |
| SircBasic.FrameBits | src/IRsmallD_SIRC_basic.h:51-57 | the frame has 12, 15 or 20 bits |
| SircBasic.BufLen | src/IRsmallD_SIRC_basic.h:72-80 | the register is wider than the frame: 16 bits for 12 and 15, 32 bits for 20 |
| SircBasic.GapMin | src/IRsmallD_SIRC_basic.h:66-67 | the start gap is 80% of (75 - (4 + 3N)) x 600 |
| SircBasic.Init | src/IRsmallD_SIRC_basic.h:80 | the machine starts in standby with a register of the right width |
| SircBasic.Extract | src/IRsmallD_SIRC_basic.h:108-124 | extraction keeps the register width |
| SircBasic.ExtractReadsFrame | src/IRsmallD_SIRC_basic.h:137-155 | the shifts and byte reads yield exactly the fields of the last N received bits, whatever stale bits are in the rest of the register |
| SircBasic.ExtractRanges | src/IRsmallD_SIRC_basic.h:108-124 | the command is below 128; the address is below 256 for 15 bits and below 32 otherwise; ext is only written for 20 bits |
| SircBasic.ShrByteBound | src/IRsmallD_SIRC_basic.h:114 | a byte shifted right by one is below 128 |
| SircBasic.Step | src/IRsmallD_SIRC_basic.h:88-131 | one edge: the slot is untouched while copying; a duration below 900 ends in standby; bitCount stays below N while receiving; keyHeld is never written; a write happens only at bit N and ends in standby |
| SircBasic.Run | src/IRsmallD_SIRC_basic.h:88-131 | a sequence of edges keeps the state invariant and never touches the slot while copying |
| SircBasic.RunAppend | src/IRsmallD_SIRC_basic.h:88-131 | running two edge sequences one after the other is the same as running their concatenation |
| SircBasic.CarriesPrefix | src/IRsmallD_SIRC_basic.h:97-107 | a prefix of a mark sequence carries the same prefix of bits |
| SircBasic.ReceivePrefix | src/IRsmallD_SIRC_basic.h:97-107 | fewer than N bit marks shift exactly those bits in at the top of the register, LSB-first |
| SircBasic.ReceiveFrame | src/IRsmallD_SIRC_basic.h:96-128 | N bit marks end in standby and, unless copying, deliver the extraction of the register holding those bits |
| SircBasic.DecodeTransmission | src/IRsmallD_SIRC_basic.h:88-128 | a start gap and N bit marks deliver the fields of those N bits, and end in standby |
| SircBasic.Encode | src/IRsmallD_SIRC_basic.h:17-27 | an encoded frame has N bits |
| SircBasic.FieldsOfEncode | src/IRsmallD_SIRC_basic.h:137-155 | the fields of an encoded frame are the command, address and (for 20 bits) extension it was built from |
| SircBasic.EncodeOfFields | src/IRsmallD_SIRC_basic.h:137-155 | every N-bit frame is the encoding of its own fields |
| SircMulti.Init | src/IRsmallD_SIRC_multi.h:70-74 | the machine starts in standby, not held, with a first width of 20 and a zero first code |
| SircMulti.WidthOf | src/IRsmallD_SIRC_multi.h:123-141 | a recorded width of 12, 15 or 20 selects the frame layout with that many bits |
| SircMulti.Extract | src/IRsmallD_SIRC_multi.h:123-141 | extraction keeps the 32-bit register width |
| SircMulti.ExtractReadsFrame | src/IRsmallD_SIRC_multi.h:167-185 | the 32-bit extraction per width yields the same fields as the fixed-width layout, with ext 0 for 12 and 15 bits |
| SircMulti.AtGap | src/IRsmallD_SIRC_multi.h:94-115 | a non-mark duration in frame 3 or outside [5280, 33840] aborts; frame 1 continues only at width 12, 15 or 20 and records width and code; frame 2 continues only if it matches the first code |
| SircMulti.OnMark | src/IRsmallD_SIRC_multi.h:116-158 | the slot is written only when frame 3 completes matching the first code (a fresh decode) or when a frame 1 matches a held key after 5 repeats; both end in standby |
| SircMulti.Step | src/IRsmallD_SIRC_multi.h:82-161 | one edge: the slot is untouched while copying; a duration below 900 ends in standby; standby never writes the slot and clears possiblyHeld below 5280 or above 33840 |
| SircMulti.Run | src/IRsmallD_SIRC_multi.h:82-161 | a sequence of edges keeps the state invariant and never touches the slot while copying |
| SircMulti.RunAppend | src/IRsmallD_SIRC_multi.h:82-161 | running two edge sequences one after the other is the same as running their concatenation |
| SircMulti.RunOne | src/IRsmallD_SIRC_multi.h:82-161 | running one edge is one step |
| SircMulti.CarriesPrefix | src/IRsmallD_SIRC_multi.h:116-119 | a prefix of a mark sequence carries the same prefix of bits |
| SircMulti.ReceiveOne | src/IRsmallD_SIRC_multi.h:116-119 | one bit mark shifts the register right, sets bit 31 iff the duration is at least 1500, and adds one to bitCount |
| SircMulti.ReceivePrefix | src/IRsmallD_SIRC_multi.h:116-119 | bit marks that complete no frame shift exactly their bits into the register |
| SircMulti.Framed | src/IRsmallD_SIRC_multi.h:66-69 | a frame received into a cleared register sits in its top bits |
| SircMulti.ReceiveQuietFrame | src/IRsmallD_SIRC_multi.h:116-119 | a whole frame received into a cleared register leaves it framed there |
| SircMulti.ReceiveLast | src/IRsmallD_SIRC_multi.h:116-148 | all but the last mark of a frame of the first width only accumulate bits |
| SircMulti.FirstFrame | src/IRsmallD_SIRC_multi.h:84-91 | a gap of at least 5280 starts frame 1 with a cleared register, and its marks accumulate the frame, unless a held key is pending and the frame equals the remembered code at the remembered width |
| SircMulti.SecondFrame | src/IRsmallD_SIRC_multi.h:99-106 | a gap after a frame 1 of a valid width records that width and code and starts frame 2 |
| SircMulti.ThirdFrame | src/IRsmallD_SIRC_multi.h:107-148 | a gap after a matching frame 2 and a third identical frame deliver its fields, reset repeatCount, keep the remembered firstCode and firstBitCount, and end in standby |
| SircMulti.DecodeTransmission | src/IRsmallD_SIRC_multi.h:82-150 | three identical frames separated by gaps deliver the fields of the frame, whenever the first cannot be taken for a held key (long silence, nothing held, or a frame other than the remembered one); possiblyHeld ends set unless copying, repeatCount ends 0, and frame 1 and its width are remembered as firstCode and firstBitCount |
| SircMulti.HeldFrame | src/IRsmallD_SIRC_multi.h:150-157 | a frame 1 equal to the first code while a key may be held only counts for the first 5 repeats, then re-announces the key as held; the remembered code and width are kept |
| SircMulti.HeldEdges | src/IRsmallD_SIRC_multi.h:150-157 | the same for the edges of one repeat taken as a whole (an ordinary gap, then the frame's marks) |
| SircMulti.SixthHeldFrameReportsHeld | src/IRsmallD_SIRC_multi.h:146-157 | from the state a decoded key press leaves (see DecodeTransmission), five held frames are swallowed and the sixth re-announces the key as held |
| SircMulti.SecondFrameMustMatch | src/IRsmallD_SIRC_multi.h:107-113 | any duration that is not a bit mark, after a frame 2 that differs from the first code, aborts to standby |
| SircMulti.FirstFrameWidth | src/IRsmallD_SIRC_multi.h:99-106 | any duration that is not a bit mark, after a frame 1 whose width is not 12, 15 or 20, aborts to standby |
| SircMulti.RoundTrip | src/IRsmallD_SIRC_multi.h:82-148 | three transmissions of an encoded frame deliver its command, address and (for 20 bits) extension |
| Samsung.Init | src/IRsmallD_SAMSUNG.h:81-84 | the machine starts in standby with no held key and a zero repeat count |
| Samsung.Finish | src/IRsmallD_SAMSUNG.h:129-150 | at bit 20, a command equal to the slot's while possiblyHeld raises repeatCount while it is below 3 and otherwise re-announces the key as held; any other frame delivers the 12-bit address and the command and resets repeatCount; always ends in standby |
| Samsung.Step | src/IRsmallD_SAMSUNG.h:95-154 | one edge: the slot is untouched while copying; a duration below 413 ends in standby; bitCount stays below 20 while receiving; the slot is written only at bit 20 |
| Samsung.Run | src/IRsmallD_SAMSUNG.h:95-154 | a sequence of edges keeps the state invariant and never touches the slot while copying |
| Samsung.RunAppend | src/IRsmallD_SAMSUNG.h:95-154 | running two edge sequences one after the other is the same as running their concatenation |
| Samsung.RunPair | src/IRsmallD_SAMSUNG.h:95-110 | running two edges is two steps |
| Samsung.CarriesPrefix | src/IRsmallD_SAMSUNG.h:113-117 | a prefix of a mark sequence carries the same prefix of bits |
| Samsung.Encode | src/IRsmallD_SAMSUNG.h:118-127 | an encoded frame has 20 bits |
| Samsung.Decode | src/IRsmallD_SAMSUNG.h:142-144 | the address is below 4096 and keyHeld is false |
| Samsung.RoundTrip | src/IRsmallD_SAMSUNG.h:118-127 | an encoded 12-bit address and 8-bit command decode to themselves |
| Samsung.EncodeOfDecode | src/IRsmallD_SAMSUNG.h:118-127 | every 20-bit frame is the encoding of what it decodes to |
| Samsung.Slide | src/IRsmallD_SAMSUNG.h:115-116 | shifting a bit in at the top of a window of a stream is the next window |
| Samsung.ReceiveOne | src/IRsmallD_SAMSUNG.h:113-128 | each of the first 19 bit marks moves the command register, the address register and bitCount on by exactly one received bit |
| Samsung.ReceivePrefix | src/IRsmallD_SAMSUNG.h:113-128 | fewer than 20 bit marks leave the registers as the received bits dictate |
| Samsung.ReceiveFrame | src/IRsmallD_SAMSUNG.h:112-150 | 20 bit marks leave the first 12 bits as the address and the last 8 as the command, then finish the frame |
| Samsung.DecodeTransmission | src/IRsmallD_SAMSUNG.h:95-150 | a gap, a leading mark and 20 bit marks deliver the frame unless it is a held repeat of the slot's command; a held repeat raises repeatCount while it is below 3, then is announced as held |
| Samsung.HeldRepeat | src/IRsmallD_SAMSUNG.h:129-140 | one repeated frame with the slot's command after an ordinary gap keeps possiblyHeld and either counts or re-announces the key |
| Samsung.FourthRepeatReportsHeld | src/IRsmallD_SAMSUNG.h:129-140 | after a fresh decode, three held frames leave the slot alone and the fourth announces the key as held |
| Samsung.FreshAfterSilence | src/IRsmallD_SAMSUNG.h:97-149 | after a gap above 30488, an encoded frame is delivered as its own address and command, with possiblyHeld set and repeatCount 0 |
| Samsung.RepeatIgnoresAddress | src/IRsmallD_SAMSUNG.h:131-140 | a held repeat is recognised by the command alone: a different address never reaches the slot |
| Samsung32.Init | src/IRsmallD_SAMSUNG32.h:57-59 | the machine starts in standby with no held key, a zero repeat count and byte index 0 |
| Samsung32.Finish | src/IRsmallD_SAMSUNG32.h:90-107 | at bit 32, a frame failing either check (byte 0 equals byte 1, byte 2 is the complement of byte 3) changes nothing but the phase; a held repeat raises repeatCount while below 2 and then announces the key; a fresh frame is delivered and resets repeatCount; always ends in standby |
| Samsung32.Step | src/IRsmallD_SAMSUNG32.h:67-112 | one edge: the slot is untouched while copying; a duration below 413 ends in standby; while receiving bitCount stays below 32 with byteIndex = bitCount / 8; the slot is written only at bit 32 |
| Samsung32.Run | src/IRsmallD_SAMSUNG32.h:67-112 | a sequence of edges keeps the state invariant and never touches the slot while copying |
| Samsung32.RunAppend | src/IRsmallD_SAMSUNG32.h:67-112 | running two edge sequences one after the other is the same as running their concatenation |
| Samsung32.RunPair | src/IRsmallD_SAMSUNG32.h:67-81 | running two edges is two steps |
| Samsung32.CarriesPrefix | src/IRsmallD_SAMSUNG32.h:84-87 | a prefix of a mark sequence carries the same prefix of bits |
| Samsung32.Encode | src/IRsmallD_SAMSUNG32.h:92 | an encoded frame has 32 bits |
| Samsung32.Split | src/IRsmallD_SAMSUNG32.h:56 | the four array bytes are the four 8-bit slices of the frame |
| Samsung32.RoundTrip | src/IRsmallD_SAMSUNG32.h:92-101 | an encoded frame passes both checks and its bytes 0 and 2 are the address and command |
| Samsung32.ChecksAdmitOnlyEncodings | src/IRsmallD_SAMSUNG32.h:92 | every frame that passes both checks is the encoding of its byte 0 and byte 2 |
| Samsung32.After | src/IRsmallD_SAMSUNG32.h:84-89 | the state after k marks of a frame keeps byteIndex = bitCount / 8 |
| Samsung32.FillByte | src/IRsmallD_SAMSUNG32.h:86-87 | a bit mark shifts its bit into the byte that byteIndex selects |
| Samsung32.KeepByte | src/IRsmallD_SAMSUNG32.h:86-87 | a bit mark leaves every other byte unchanged |
| Samsung32.FillArray | src/IRsmallD_SAMSUNG32.h:86-89 | one bit mark moves the whole array on by one received bit |
| Samsung32.ReceiveOne | src/IRsmallD_SAMSUNG32.h:84-89 | each of the first 31 bit marks moves the array, byteIndex and bitCount on by exactly one received bit |
| Samsung32.ReceivePrefix | src/IRsmallD_SAMSUNG32.h:84-89 | fewer than 32 bit marks leave the array as the received bits dictate |
| Samsung32.ReceiveFrame | src/IRsmallD_SAMSUNG32.h:84-107 | 32 bit marks leave byte k holding received bits 8k to 8k+7, LSB-first, then finish the frame |
| Samsung32.DecodeTransmission | src/IRsmallD_SAMSUNG32.h:67-107 | a gap, a leading mark and 32 bit marks deliver byte 0 and byte 2 if the checks pass and the frame is not a held repeat; a held repeat raises repeatCount while it is below 2, then is announced as held |
| Samsung32.HeldRepeat | src/IRsmallD_SAMSUNG32.h:92-97 | one repeated checked frame with the slot's command after an ordinary gap keeps possiblyHeld and either counts or re-announces the key |
| Samsung32.ThirdRepeatReportsHeld | src/IRsmallD_SAMSUNG32.h:92-97 | after a fresh decode, two held frames leave the slot alone and the third announces the key as held |
| Samsung32.FreshAfterSilence | src/IRsmallD_SAMSUNG32.h:68-106 | after a gap above 76835, an encoded frame is delivered as its own address and command |
| Decoder.Create | src/IRsmallDecoder.h:166-181 | the decoder starts with the chosen protocol's machine in standby |
| Decoder.ShortestMark | src/IRsmallDecoder.h:113-115 | every protocol has a positive shortest accepted interval |
| Decoder.Step | src/IRsmallDecoder.h:166-181 | one edge keeps the protocol and the invariant, never touches the slot while copying, and a duration below the protocol's shortest interval ends in standby |
| Decoder.Run | src/IRsmallDecoder.h:86 | no sequence of edges of any protocol changes the slot while a copy is in progress |
| Decoder.Enable | src/IRsmallDecoder.h:111-116 | two back-to-back handler calls end in standby whenever the second measures less than the protocol's shortest interval |
| Decoder.ReadDuringEdges | src/IRsmallDecoder.h:133-141 | a read interleaved with any edges of any protocol returns exactly the data pending when it began, and leaves the slot empty |

## Left out

- Clock reads: `micros()` and the `startTime`/`_previousTime` bookkeeping are left out. Every step takes the measured duration as input. RC5 also takes the absolute edge time, for its modular repeat-period check.
- Hardware set-up: the constructor, `disable()`, `pinMode`, `attachInterrupt`/`detachInterrupt` and the ISR-mode selection are left out. They do not affect decoding.
- Debug output (`DBG_*` macros) is left out; it has no effect on decoding.
- The preprocessor protocol check is left out. The protocol choice is the `Decoder.Protocol` datatype.
- Concurrency: the model does not interleave the ISR and the consumer at instruction level, and does not model `volatile`. The copying flag is part of the mailbox that each step reads, and `Decoder.ReadDuringEdges` brackets a batch of edges between raising and clearing it.
- Computed gotos: RC5's real states and pseudo-states become functions that call each other once per edge (`FromMiddle`/`FromBoundary` → `Choice` → `DecodeFrame`). An edge therefore always finishes in a bounded number of calls.
- Byte order: union type punning and the NECx pointer cast become little-endian byte views of a bit sequence.
- The layout of `irSmallD_t` is not part of this model. Its field widths are taken as 16-bit addr, 8-bit cmd and 8-bit ext, which is what the assignments in the handlers imply.
- The per-file state variable differs by protocol. NEC and SAMSUNG keep their own static `state`, while RC5, SIRC and SAMSUNG32 use the decoder's `_state`. Both are simply the phase of the state record here.
- Samsung32.Step: requires byteIndex < 4 while receiving. The C code would index past the array otherwise. `Samsung32.Valid` (byteIndex = bitCount / 8, bitCount < 32) implies it, and `Samsung32.Run` keeps that invariant.
- Decoder.Enable: states the standby guarantee only when the second call measures less than the shortest accepted interval. That is the case the source relies on: the two calls are back to back. The first call's effect on the slot is not constrained beyond the copying guard.
- Decoder.Run: states only the copying guard and the invariant; each protocol's `Run` lemmas give the decoding results.
- Timeout watchdog: no timeout logic appears in the handlers, so none is modelled. RC5's `_state` flag, which only that check reads, is set to "not in standby" after every edge; here it is simply `phase != Standby`, with no member of its own.

The SAMSUNG thresholds follow the code's `BIT_1_MARK` of 2550 µs, not the 2250 µs that the protocol description in the same file gives. So a 1 bit is at least 1838 µs, a bit mark at most 3262 µs, and the gap window is (2887, 30488].
