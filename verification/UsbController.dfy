/** The USB controller's path from the UART to the USB endpoints (ch552_fw/src/main.c): the receive interrupt, the
    ring buffer with CTS flow control, and the main loop that takes frames apart, step by step. */
module UsbController {
  import opened Words
  import opened UsbFrames

  const SIZE: int := 140
  const MAX_FRAME: int := 64

  // ---------- the ring buffer ----------

  /** The ring holds `pending`, oldest byte at `outp`. It is never full, so equal pointers mean empty. */
  ghost predicate Ring(buf: seq<u8>, inp: int, outp: int, pending: seq<u8>)
  {
    match |buf|
    case 140 =>
      && 0 <= outp < SIZE && |pending| < SIZE && inp == Around(outp + |pending|)
      && forall i :: 0 <= i < |pending| ==> Slot(buf, outp, i) == pending[i]
    case _ => false
  }

  /** A position below 2 * SIZE, wrapped. */
  function Around(p: int): int
  {
    if p < SIZE then p else p - SIZE
  }

  /** Byte number i from position outp. */
  function Slot(buf: seq<u8>, outp: int, i: int): u8
    requires |buf| == SIZE && 0 <= outp < SIZE && 0 <= i < SIZE
  {
    buf[Around(outp + i)]
  }

  /** increment_pointer */
  function IncrementPointer(pointer: u8, increment: u8): (p: u8)
    requires pointer < SIZE && increment < SIZE
    ensures p == Around(pointer + increment)
  {
    (pointer + increment) % SIZE
  }

  lemma Push(buf: seq<u8>, inp: int, outp: int, pending: seq<u8>, x: u8)
    requires Ring(buf, inp, outp, pending) && |pending| + 1 < SIZE
    ensures 0 <= inp < SIZE && Ring(buf[inp := x], Around(inp + 1), outp, pending + [x])
  {
    var b, q := buf[inp := x], pending + [x];
    forall i | 0 <= i < |q| ensures Slot(b, outp, i) == q[i] {
      if i < |pending| {
        assert Slot(buf, outp, i) == pending[i];
      }
    }
  }

  lemma Take(buf: seq<u8>, inp: int, outp: int, pending: seq<u8>, n: nat)
    requires Ring(buf, inp, outp, pending) && n <= |pending|
    ensures Ring(buf, inp, Around(outp + n), pending[n..])
  {
    var q := pending[n..];
    forall i | 0 <= i < |q| ensures Slot(buf, Around(outp + n), i) == q[i] {
      assert Slot(buf, outp, n + i) == pending[n + i];
    }
  }

  /** uart_byte_count */
  function ByteCount(inp: u8, outp: u8): (n: u8)
    requires inp < SIZE && outp < SIZE
  {
    if inp >= outp then inp - outp else SIZE - (outp - inp)
  }

  lemma ByteCountIsPending(buf: seq<u8>, inp: u8, outp: u8, pending: seq<u8>)
    requires Ring(buf, inp, outp, pending)
    ensures inp < SIZE && outp < SIZE && ByteCount(inp, outp) == |pending|
  {
  }

  /** circular_copy: one or two straight copies out of the ring. */
  method CircularCopy(dest: array<u8>, src: seq<u8>, start_pos: u8, length: u8, ghost inp: int, ghost pending: seq<u8>)
    requires dest.Length == MAX_FRAME && length <= MAX_FRAME && length <= |pending|
    requires Ring(src, inp, start_pos, pending)
    modifies dest
    ensures dest[..length] == pending[..length]
  {
    var remaining_space := SIZE - start_pos;
    if length <= remaining_space {
      MemCopy(dest, 0, src, start_pos, length);
    } else {
      MemCopy(dest, 0, src, start_pos, remaining_space);
      MemCopy(dest, remaining_space, src, 0, length - remaining_space);
    }
    forall i | 0 <= i < length ensures dest[i] == pending[i] {
      assert Slot(src, start_pos, i) == pending[i];
    }
  }

  /** memcpy */
  method MemCopy(dest: array<u8>, at: nat, src: seq<u8>, from: nat, n: nat)
    requires at + n <= dest.Length && from + n <= |src|
    modifies dest
    ensures forall i :: at <= i < at + n ==> dest[i] == src[from + i - at]
    ensures forall i :: 0 <= i < dest.Length && !(at <= i < at + n) ==> dest[i] == old(dest[i])
  {
    for k := 0 to n
      invariant forall i :: at <= i < at + k ==> dest[i] == src[from + i - at]
      invariant forall i :: 0 <= i < dest.Length && !(at <= i < at + k) ==> dest[i] == old(dest[i])
    {
      dest[at + k] := src[from + k];
    }
  }

  // ---------- flow control ----------

  /** CTS towards the FPGA. After a stop at most two more bytes arrive: the sender may have one byte leaving and
      one waiting. */
  datatype Cts = Go | Stop(budget: nat)

  /** cts_stop: a second stop does not grant new bytes. */
  function Stopped(cts: Cts): Cts
  {
    if cts.Go? then Stop(2) else cts
  }

  /** Where the current frame stands, as the bound on the ring depends on it. */
  datatype Phase = NoFrame | HeaderTaken | PayloadTaken | Waiting | Dead

  /** The most bytes the ring can reach in each phase: taking a header frees two bytes, taking a payload at least
      one, and only then does CTS go back to start. */
  function Limit(p: Phase): nat
  {
    match p
    case NoFrame => 138
    case HeaderTaken => 136
    case PayloadTaken => 135
    case Waiting => 138
    case Dead => 138
  }

  /** The fewest bytes in the ring while CTS is stopped: it stops at 133, and a header may have been taken since. */
  function Least(p: Phase): nat
  {
    match p
    case NoFrame => 133
    case HeaderTaken => 131
    case PayloadTaken => 0
    case Waiting => 133
    case Dead => 0
  }

  ghost predicate Bounded(count: int, cts: Cts, p: Phase)
  {
    match cts
    case Go => count + 3 <= Limit(p)
    case Stop(b) => Least(p) <= count && count + b <= Limit(p)
  }

  // ---------- frames ----------

  datatype Slots = Cdc | Fido | Ccid | Debug | Ch552 | Discard

  function SlotOf(mode: u8): Slots
  {
    if mode == IO_CDC then Cdc else if mode == IO_FIDO then Fido else if mode == IO_CCID then Ccid
    else if mode == IO_DEBUG then Debug else Ch552
  }

  /** The steps of one pass through the main loop between which an interrupt may happen. */
  datatype Pc = Count | Header | Copy | Advance | Start | UploadCdc | ZeroLength | UploadFido | UploadCcid | UploadDebug
    | HandleCh552 | EndDiscard | Halted

  /** Frame number `done` is the current one: `consumed` bytes are taken from the ring, `mode` is its mode, and
      `remaining` is its payload until the payload is taken, and then 0. */
  ghost predicate AtFrame(frames: seq<Frame>, done: nat, received: seq<u8>, consumed: nat, started: bool, mode: u8, remaining: int)
  {
    match started
    case false => done <= |frames| && consumed == |Wire(frames[..done])| <= |received|
    case true =>
      && done < |frames| && mode == frames[done].mode && (remaining == 0 || remaining == |frames[done].payload|)
      && consumed == |Wire(frames[..done])| + 2 + |frames[done].payload| - remaining <= |received|
  }

  /** What one endpoint has been given: the payload of its own finished frames, nothing when it is not active. */
  ghost predicate Delivered(given: seq<u8>, mode: u8, active: set<u8>, frames: seq<Frame>, done: nat)
  {
    match mode in active
    case true => done <= |frames| && given == Payload(frames[..done], mode)
    case false => given == []
  }

  ghost function PhaseOf(started: bool, remaining: int, pc: Pc): Phase
  {
    if pc == Halted then Dead else if !started then NoFrame else if remaining > 0 then HeaderTaken else if pc == Start then PayloadTaken else Waiting
  }

  /** The ring, its bytes as a part of what was sent, and the room left in it. */
  ghost predicate Flow(buf: seq<u8>, inp: int, outp: int, cts: Cts, wire: seq<u8>, received: seq<u8>, consumed: nat, p: Phase)
  {
    match |buf|
    case 140 =>
      && received <= wire && consumed <= |received|
      && Ring(buf, inp, outp, received[consumed..]) && Bounded(|received| - consumed, cts, p)
    case _ => false
  }

  /** Bounded is what keeps the ring from filling up. */
  lemma NeverFull(count: int, cts: Cts, p: Phase)
    requires Bounded(count, cts, p)
    ensures count <= 138 && ((cts.Go? || cts.budget > 0) ==> count + 1 < SIZE)
  {
  }

  /** The interrupt: one byte in, and a stop at 133 bytes. */
  lemma Received(buf: seq<u8>, inp: int, outp: int, cts: Cts, wire: seq<u8>, received: seq<u8>, consumed: nat, p: Phase, x: u8)
    requires Flow(buf, inp, outp, cts, wire, received, consumed, p) && received + [x] <= wire
    requires cts.Go? || cts.budget > 0
    ensures 0 <= inp < SIZE
    ensures var count := |received| + 1 - consumed;
            var after := match cts case Go => if count >= 133 then Stop(2) else Go case Stop(b) => Stop(b - 1);
            0 <= Around(inp + 1) < SIZE && 0 <= outp < SIZE && ByteCount(Around(inp + 1), outp) == count
            && Flow(buf[inp := x], Around(inp + 1), outp, after, wire, received + [x], consumed, p)
  {
    hide Ring;
    NeverFull(|received| - consumed, cts, p);
    Push(buf, inp, outp, received[consumed..], x);
    assert received[consumed..] + [x] == (received + [x])[consumed..];
    RingRange(buf[inp := x], Around(inp + 1), outp, received[consumed..] + [x]);
    ByteCountIsPending(buf[inp := x], Around(inp + 1), outp, received[consumed..] + [x]);
  }

  lemma RingRange(buf: seq<u8>, inp: int, outp: int, pending: seq<u8>)
    requires Ring(buf, inp, outp, pending)
    ensures 0 <= inp < SIZE && 0 <= outp < SIZE
  {
  }

  /** The main loop takes bytes out. */
  lemma Taken(buf: seq<u8>, inp: int, outp: int, cts: Cts, wire: seq<u8>, received: seq<u8>, consumed: nat, p: Phase, n: nat, q: Phase)
    requires Flow(buf, inp, outp, cts, wire, received, consumed, p) && consumed + n <= |received| && n < SIZE
    requires Limit(p) <= Limit(q) + n && Least(q) + n <= Least(p)
    ensures Flow(buf, inp, Around(outp + n), cts, wire, received, consumed + n, q)
  {
    hide Ring;
    Take(buf, inp, outp, received[consumed..], n);
    assert received[consumed..][n..] == received[consumed + n..];
  }

  /** The variables that only the main loop writes. */
  datatype Main = Main(mode: u8, remaining: u8, started: bool, discard: bool, available: set<Slots>, pc: Pc, copied: u8,
    byteCount: u8, frameBufLength: u8)

  /** What has happened: bytes received, bytes taken from the ring, frames finished, and what the endpoints were given. */
  datatype History = History(received: seq<u8>, consumed: nat, done: nat, cdc: seq<u8>, fido: seq<u8>, ccid: seq<u8>,
    debug: seq<u8>)

  function CurrentSlot(mode: u8, discard: bool): Slots
  {
    if discard then Discard else SlotOf(mode)
  }

  /** How the main loop's variables describe the current frame. */
  ghost predicate Loop(m: Main, frameBuf: seq<u8>, active: set<u8>, frames: seq<Frame>, done: nat, received: seq<u8>, consumed: nat)
  {
    match m
    case Main(mode, remaining, started, discard, available, pc, copied, byteCount, frameBufLength) =>
      && AtFrame(frames, done, received, consumed, started, mode, remaining)
      && discard == (started && mode !in active)
      && available == (if started && remaining == 0 && pc != Start then {CurrentSlot(mode, discard)} else {})
      && (pc == Header || pc == Copy || pc == Advance ==> byteCount as int <= |received| - consumed)
      && (pc == Advance ==> started && remaining > 0 && copied == remaining && byteCount >= copied)
      && (pc == Start ==> started && remaining == 0)
      && (started && !discard && (pc == Advance || remaining == 0) ==> Copied(frames, done, frameBuf, frameBufLength))
  }

  /** FrameBuf holds the current payload. */
  ghost predicate Copied(frames: seq<Frame>, done: nat, frameBuf: seq<u8>, frameBufLength: u8)
  {
    done < |frames| && |frameBuf| == MAX_FRAME && frameBufLength <= MAX_FRAME && frameBuf[..frameBufLength] == frames[done].payload
  }

  lemma LoopReceives(m: Main, frameBuf: seq<u8>, active: set<u8>, frames: seq<Frame>, done: nat, received: seq<u8>, consumed: nat, x: u8)
    requires Loop(m, frameBuf, active, frames, done, received, consumed)
    ensures Loop(m, frameBuf, active, frames, done, received + [x], consumed)
  {
    hide Wire;
  }

  /** Between frames the mode does not matter. */
  lemma LoopIdle(m: Main, frameBuf: seq<u8>, active: set<u8>, frames: seq<Frame>, done: nat, received: seq<u8>, consumed: nat, mode: u8)
    requires Loop(m, frameBuf, active, frames, done, received, consumed) && !m.started
    ensures Loop(m.(mode := mode, pc := Halted), frameBuf, active, frames, done, received, consumed)
  {
  }

  lemma LoopToCopy(m: Main, frameBuf: seq<u8>, active: set<u8>, frames: seq<Frame>, done: nat, received: seq<u8>, consumed: nat)
    requires Loop(m, frameBuf, active, frames, done, received, consumed) && m.pc == Header
    ensures Loop(m.(pc := Copy), frameBuf, active, frames, done, received, consumed)
    ensures !m.started ==> !m.discard
  {
  }

  lemma HeaderKeepsLoop(m: Main, frameBuf: seq<u8>, active: set<u8>, frames: seq<Frame>, done: nat, received: seq<u8>, consumed: nat)
    requires Loop(m, frameBuf, active, frames, done, received, consumed) && m.pc == Header && !m.started && m.byteCount >= 2
    requires AllValid(frames) && done < |frames|
    requires AtFrame(frames, done, received, consumed + 2, true, frames[done].mode, |frames[done].payload|)
    ensures var f := frames[done];
            Loop(m.(mode := f.mode, remaining := |f.payload|, byteCount := m.byteCount - 2, started := true,
                    discard := f.mode !in active, pc := Copy), frameBuf, active, frames, done, received, consumed + 2)
  {
    hide Wire;
    assert frames[done].Valid();
  }

  lemma RemainingSmall(m: Main, frameBuf: seq<u8>, active: set<u8>, frames: seq<Frame>, done: nat, received: seq<u8>, consumed: nat)
    requires Loop(m, frameBuf, active, frames, done, received, consumed) && m.started && AllValid(frames)
    ensures m.remaining <= MAX_FRAME
    ensures CurrentSlot(m.mode, m.discard) !in m.available && m.pc != Start ==> m.remaining > 0
  {
    hide Wire;
    assert frames[done].Valid();
  }

  /** The main loop is past the copying steps. */
  predicate Uploading(pc: Pc)
  {
    pc in {UploadCdc, ZeroLength, UploadFido, UploadCcid, UploadDebug, HandleCh552, EndDiscard}
  }

  /** An available payload belongs to the current frame, which is then complete. */
  lemma FrameComplete(m: Main, frameBuf: seq<u8>, active: set<u8>, frames: seq<Frame>, done: nat, received: seq<u8>, consumed: nat, slot: Slots, len: u8)
    requires Loop(m, frameBuf, active, frames, done, received, consumed) && slot in m.available && Uploading(m.pc)
    ensures m.started && m.remaining == 0 && m.available == {slot} && done < |frames|
    ensures m.mode == frames[done].mode && m.discard == (m.mode !in active) && slot == CurrentSlot(m.mode, m.discard)
    ensures !m.discard ==> Copied(frames, done, frameBuf, m.frameBufLength)
    ensures Loop(m.(available := {}, frameBufLength := len, started := false, discard := false), frameBuf, active, frames, done + 1, received, consumed)
  {
    WireNext(frames, done);
  }

  lemma NextPc(m: Main, frameBuf: seq<u8>, active: set<u8>, frames: seq<Frame>, done: nat, received: seq<u8>, consumed: nat, pc: Pc)
    requires Loop(m, frameBuf, active, frames, done, received, consumed) && Uploading(m.pc) && (Uploading(pc) || pc == Count || pc == Halted)
    ensures Loop(m.(pc := pc), frameBuf, active, frames, done, received, consumed)
  {
    hide AtFrame;
  }

  /** The endpoints that the host reads. */
  const PORTS: set<u8> := {IO_CDC, IO_FIDO, IO_CCID, IO_DEBUG}

  function GivenTo(g: History, mode: u8): seq<u8>
  {
    if mode == IO_CDC then g.cdc else if mode == IO_FIDO then g.fido else if mode == IO_CCID then g.ccid else g.debug
  }

  /** Every endpoint has been given what the finished frames carry for it. */
  ghost predicate Orderly(g: History, active: set<u8>, frames: seq<Frame>)
  {
    forall mode :: mode in PORTS ==> Delivered(GivenTo(g, mode), mode, active, frames, g.done)
  }

  /** A frame ends: the endpoint of its slot has been given its payload. */
  ghost function Ended(g: History, slot: Slots, payload: seq<u8>): History
  {
    g.(done := g.done + 1,
       cdc := if slot == Cdc then g.cdc + payload else g.cdc,
       fido := if slot == Fido then g.fido + payload else g.fido,
       ccid := if slot == Ccid then g.ccid + payload else g.ccid,
       debug := if slot == Debug then g.debug + payload else g.debug)
  }

  /** The frame goes to the endpoint of its mode and to no other. */
  lemma EndDelivered(g: History, slot: Slots, mode: u8, active: set<u8>, frames: seq<Frame>)
    requires Orderly(g, active, frames) && g.done < |frames|
    requires mode == frames[g.done].mode && slot == CurrentSlot(mode, mode !in active)
    ensures Orderly(Ended(g, slot, frames[g.done].payload), active, frames)
  {
    hide Delivered, GivenTo, PORTS;
    var payload := frames[g.done].payload;
    forall port | port in PORTS
      ensures Delivered(GivenTo(Ended(g, slot, payload), port), port, active, frames, g.done + 1)
    {
      DeliveredNext(GivenTo(g, port), port, active, frames, g.done);
      EndedGives(g, mode, active, payload, port);
    }
  }

  lemma EndedGives(g: History, mode: u8, active: set<u8>, payload: seq<u8>, port: u8)
    requires port in PORTS
    ensures GivenTo(Ended(g, CurrentSlot(mode, mode !in active), payload), port)
         == if mode == port && mode in active then GivenTo(g, port) + payload else GivenTo(g, port)
  {
  }

  /** Receiving and taking bytes delivers nothing. */
  lemma StillOrderly(g: History, received: seq<u8>, consumed: nat, active: set<u8>, frames: seq<Frame>)
    requires Orderly(g, active, frames)
    ensures Orderly(g.(received := received, consumed := consumed), active, frames)
  {
    hide Delivered;
    var g' := g.(received := received, consumed := consumed);
    forall mode | mode in PORTS ensures Delivered(GivenTo(g', mode), mode, active, frames, g'.done) {
      assert Delivered(GivenTo(g, mode), mode, active, frames, g.done);
    }
  }

  lemma DeliveredNext(given: seq<u8>, mode: u8, active: set<u8>, frames: seq<Frame>, done: nat)
    requires Delivered(given, mode, active, frames, done) && done < |frames|
    ensures Delivered(if frames[done].mode == mode && mode in active then given + frames[done].payload else given, mode, active, frames, done + 1)
  {
    PayloadNext(frames, done, mode);
  }

  /** One upload step: the waiting frame ends there, or only the position moves. */
  ghost predicate Uploaded(before: Main, g0: History, after: Main, g1: History, frames: seq<Frame>, slot: Slots, sent: bool, len: u8, pc: Pc)
  {
    match sent
    case true =>
      g0.done < |frames| && g1 == Ended(g0, slot, frames[g0.done].payload)
      && after == before.(available := {}, frameBufLength := len, started := false, discard := false, pc := pc)
    case false => g1 == g0 && after == before.(pc := pc)
  }

  /** The order of the steps in one pass. */
  predicate Follows(before: Pc, after: Pc)
  {
    match before
    case Count => after == Header
    case Header => after == Copy || after == Halted
    case Copy => after == Advance || after == UploadCdc
    case Advance => after == Start
    case Start => after == UploadCdc
    case UploadCdc => after == ZeroLength
    case ZeroLength => after == UploadFido
    case UploadFido => after == UploadCcid
    case UploadCcid => after == UploadDebug
    case UploadDebug => after == HandleCh552
    case HandleCh552 => after == EndDiscard || after == Halted
    case EndDiscard => after == Count
    case Halted => after == Halted
  }

  /** The modes that a frame may have. */
  predicate Known(mode: u8)
  {
    mode == IO_CDC || mode == IO_FIDO || mode == IO_CCID || mode == IO_DEBUG || mode == IO_CH552
  }

  /** A header is taken: the next frame begins, or an unknown mode stops everything. */
  ghost predicate HeaderRead(before: Main, g0: History, cts0: Cts, after: Main, g1: History, cts1: Cts, frames: seq<Frame>, active: set<u8>)
  {
    match g0.done < |frames|
    case false => false
    case true =>
      var f := frames[g0.done];
      if Known(f.mode) then
        && g1 == g0.(consumed := g0.consumed + 2) && cts1 == cts0
        && after.remaining == |f.payload| && after.byteCount == before.byteCount - 2
        && after == before.(mode := f.mode, remaining := after.remaining, byteCount := after.byteCount, started := true,
                            discard := f.mode !in active, pc := Copy)
      else
        g1 == g0 && cts1 == Stopped(cts0) && after == before.(mode := f.mode, pc := Halted)
  }

  /** The payload can be copied: all of it is in the ring and FrameBuf is free; FIDO takes 64 bytes or nothing. */
  predicate Ready(m: Main)
  {
    m.started && CurrentSlot(m.mode, m.discard) !in m.available && m.byteCount >= m.remaining
    && (m.remaining == MAX_FRAME || CurrentSlot(m.mode, m.discard) != Fido)
  }

  class Controller {
    ghost const frames: seq<Frame>
    const active: set<u8>
    const uartRxBuf: array<u8>
    var inp: u8
    var outp: u8
    var cts: Cts
    const frameBuf: array<u8>
    var m: Main
    var sendZeroLength: bool
    var ep2Busy: bool
    var ep3Busy: bool
    var ep4Busy: bool
    ghost var g: History

    ghost predicate InFlow(p: Phase)
      reads this, uartRxBuf
    {
      Flow(uartRxBuf[..], inp, outp, cts, Wire(frames), g.received, g.consumed, p)
    }

    ghost predicate InLoop()
      reads this, frameBuf
    {
      Loop(m, frameBuf[..], active, frames, g.done, g.received, g.consumed)
    }

    ghost predicate Valid()
      reads this, uartRxBuf, frameBuf
    {
      && AllValid(frames) && frameBuf.Length == MAX_FRAME && uartRxBuf.Length == SIZE && uartRxBuf != frameBuf
      && InLoop() && InFlow(PhaseOf(m.started, m.remaining, m.pc)) && Orderly(g, active, frames)
    }

    /** Start-up: CDC and the control port are always active, FIDO and CCID not together. */
    constructor (reset_keep: set<u8>, ghost frames: seq<Frame>)
      requires AllValid(frames)
      ensures Valid() && this.frames == frames && IO_CDC in active && fresh(uartRxBuf) && fresh(frameBuf)
      ensures g.received == []
    {
      this.frames := frames;
      var endpoints := reset_keep + {IO_CDC, IO_CH552};
      if IO_FIDO in endpoints && IO_CCID in endpoints {
        endpoints := endpoints - {IO_FIDO, IO_CCID};
      }
      active := endpoints;
      uartRxBuf := new u8[SIZE](_ => 0);
      frameBuf := new u8[MAX_FRAME](_ => 0);
      inp, outp, cts := 0, 0, Go;
      m := Main(0, 0, false, false, {}, Count, 0, 0, 0);
      sendZeroLength, ep2Busy, ep3Busy, ep4Busy := false, false, false, false;
      g := History([], 0, 0, [], [], [], []);
      new;
      assert frames[..0] == [];
    }

    /** Uart1_ISR: the next byte from the FPGA, which arrives only while CTS lets it. */
    method Uart1Isr(x: u8)
      requires Valid() && g.received + [x] <= Wire(frames) && (cts.Go? || cts.budget > 0)
      modifies this`inp, this`cts, this`g, uartRxBuf
      ensures Valid() && g == old(g).(received := old(g.received) + [x])
      ensures cts == match old(cts)
                     case Go => if |g.received| - g.consumed >= 133 then Stop(2) else Go
                     case Stop(b) => Stop(if b > 0 then b - 1 else 0)
    {
      hide Ring, Wire, Payload, AllValid, Bounded, Loop, Orderly;
      ghost var p := PhaseOf(m.started, m.remaining, m.pc);
      Received(uartRxBuf[..], inp, outp, cts, Wire(frames), g.received, g.consumed, p, x);
      LoopReceives(m, frameBuf[..], active, frames, g.done, g.received, g.consumed, x);
      uartRxBuf[inp] := x;
      inp := if inp + 1 >= SIZE then 0 else inp + 1;
      if cts.Stop? {
        cts := Stop(cts.budget - 1);
      }
      StillOrderly(g, g.received + [x], g.consumed, active, frames);
      g := g.(received := g.received + [x]);
      // check_cts_stop
      if ByteCount(inp, outp) >= 133 {
        cts := Stopped(cts);
      }
    }

    /** USB IN completions free their endpoint. */
    method InDone(endpoint: nat)
      requires Valid()
      modifies this`ep2Busy, this`ep3Busy, this`ep4Busy
      ensures Valid()
      ensures ep2Busy == (old(ep2Busy) && endpoint != 2)
      ensures ep3Busy == (old(ep3Busy) && endpoint != 3)
      ensures ep4Busy == (old(ep4Busy) && endpoint != 4)
    {
      hide Flow, Wire, Payload, AllValid, Bounded, Loop, Orderly;
      if endpoint == 2 {
        ep2Busy := false;
      } else if endpoint == 3 {
        ep3Busy := false;
      } else if endpoint == 4 {
        ep4Busy := false;
      }
    }

    /** Counts the bytes in the ring; later steps of the pass use this count, which may grow stale but not too large. */
    method CountStep()
      requires Valid() && m.pc == Count
      modifies this`m
      ensures Valid() && m.byteCount == |g.received| - g.consumed
      ensures m == old(m).(byteCount := m.byteCount, pc := Header)
    {
      hide Ring, Wire, Payload, AllValid, Bounded, Orderly;
      FlowCount(uartRxBuf[..], inp, outp, cts, Wire(frames), g.received, g.consumed, PhaseOf(m.started, m.remaining, m.pc));
      m := m.(byteCount := ByteCount(inp, outp), pc := Header);
    }

    /** A known mode: the two bytes of the header leave the ring. */
    method TakeHeader(mode: u8, length: u8)
      requires Valid() && m.pc == Header && !m.started && m.byteCount >= 2 && g.done < |frames|
      requires mode == frames[g.done].mode && 1 <= length as int == |frames[g.done].payload| && outp < SIZE
      requires Flow(uartRxBuf[..], inp, IncrementPointer(outp, 2), cts, Wire(frames), g.received, g.consumed + 2, HeaderTaken)
      requires AtFrame(frames, g.done, g.received, g.consumed + 2, true, mode, length)
      modifies this`m, this`outp, this`g
      ensures Valid() && outp == IncrementPointer(old(outp), 2) && g == old(g).(consumed := old(g).consumed + 2)
      ensures m == old(m).(mode := mode, remaining := length, byteCount := old(m).byteCount - 2, started := true,
                           discard := mode !in active, pc := Copy)
    {
      hide Ring, Wire, Payload, AllValid, Orderly, AtFrame, Loop, Bounded, Flow;
      LoopToCopy(m, frameBuf[..], active, frames, g.done, g.received, g.consumed);
      HeaderKeepsLoop(m, frameBuf[..], active, frames, g.done, g.received, g.consumed);
      StillOrderly(g, g.received, g.consumed + 2, active, frames);
      outp := IncrementPointer(outp, 2);
      g := g.(consumed := g.consumed + 2);
      m := m.(mode := mode, remaining := length, byteCount := m.byteCount - 2, started := true,
        discard := if mode !in active then true else m.discard, pc := Copy);
    }

    /** An unknown mode: the FPGA is stopped for good. */
    method RejectMode(mode: u8)
      requires Valid() && m.pc == Header && !m.started
      modifies this`m, this`cts
      ensures Valid() && cts == Stopped(old(cts)) && m == old(m).(mode := mode, pc := Halted)
    {
      hide Ring, Wire, Payload, AllValid, Orderly, AtFrame, Loop, Bounded, Flow;
      StopKeepsFlow(uartRxBuf[..], inp, outp, cts, Wire(frames), g.received, g.consumed, NoFrame);
      LoopIdle(m, frameBuf[..], active, frames, g.done, g.received, g.consumed, mode);
      cts := Stopped(cts);
      m := m.(mode := mode, pc := Halted);
    }

    /** Takes mode and length of the next frame out of the ring; an unknown mode stops the FPGA and resets. */
    method HeaderStep()
      requires Valid() && m.pc == Header
      modifies this`m, this`outp, this`cts, this`g
      ensures Valid()
      ensures if old(m.byteCount) >= 2 && !old(m.started) then HeaderRead(old(m), old(g), old(cts), m, g, cts, frames, active)
              else m == old(m).(pc := Copy) && g == old(g) && cts == old(cts)
    {
      hide Ring, Wire, Payload, AllValid, Orderly, AtFrame, Loop, Bounded, Flow;
      LoopToCopy(m, frameBuf[..], active, frames, g.done, g.received, g.consumed);
      if m.byteCount >= 2 && !m.started {
        NextHeader(uartRxBuf[..], inp, outp, cts, frames, g.received, g.consumed, g.done, NoFrame, m, frameBuf[..], active);
        var mode := uartRxBuf[outp];
        if Known(mode) {
          TakeHeader(mode, uartRxBuf[IncrementPointer(outp, 1)]);
        } else {
          RejectMode(mode);
        }
      } else {
        m := m.(pc := Copy);
      }
    }

    /** Copies the payload out of the ring once it is complete and FrameBuf is free. FIDO takes 64 bytes or nothing. */
    method CopyStep()
      requires Valid() && m.pc == Copy
      modifies this`m, frameBuf
      ensures Valid()
      ensures if Ready(old(m)) then
                m == old(m).(frameBufLength := if m.discard then old(m.frameBufLength) else old(m.remaining), copied := old(m.remaining), pc := Advance)
              else m == old(m).(pc := UploadCdc)
    {
      hide Ring, Wire, Payload, AllValid, Orderly, AtFrame;
      var slot := CurrentSlot(m.mode, m.discard);
      if m.started && slot !in m.available {
        RemainingSmall(m, frameBuf[..], active, frames, g.done, g.received, g.consumed);
        if (m.remaining >= MAX_FRAME && m.byteCount >= MAX_FRAME)
           || (slot != Fido && m.remaining < MAX_FRAME && m.byteCount >= m.remaining) {
          var n := if m.remaining >= MAX_FRAME then MAX_FRAME else m.remaining;
          WholePayload(uartRxBuf[..], inp, outp, cts, frames, g.received, g.consumed, g.done,
            PhaseOf(m.started, m.remaining, m.pc), m, frameBuf[..], active);
          if !m.discard {
            CircularCopy(frameBuf, uartRxBuf[..], outp, n, inp, g.received[g.consumed..]);
            m := m.(frameBufLength := n);
          }
          m := m.(copied := n, pc := Advance);
          return;
        }
      }
      m := m.(pc := UploadCdc);
    }

    /** Moves the output pointer past the payload; CTS has not been started yet. */
    method AdvanceStep()
      requires Valid() && m.pc == Advance
      modifies this`outp, this`m, this`g
      ensures Valid() && g == old(g).(consumed := old(g.consumed) + old(m.copied))
      ensures m == old(m).(remaining := 0, pc := Start)
    {
      hide Ring, Wire, Payload, AllValid, Orderly;
      ghost var p := PhaseOf(m.started, m.remaining, m.pc);
      WholePayload(uartRxBuf[..], inp, outp, cts, frames, g.received, g.consumed, g.done, p, m, frameBuf[..], active);
      Taken(uartRxBuf[..], inp, outp, cts, Wire(frames), g.received, g.consumed, p, m.copied, PayloadTaken);
      FlowRange(uartRxBuf[..], inp, outp, cts, Wire(frames), g.received, g.consumed, p);
      outp := IncrementPointer(outp, m.copied);
      StillOrderly(g, g.received, g.consumed + m.copied, active, frames);
      g := g.(consumed := g.consumed + m.copied);
      m := m.(remaining := m.remaining - m.copied, pc := Start);
    }

    /** Marks the payload available and signals the FPGA to go on. */
    method StartStep()
      requires Valid() && m.pc == Start
      modifies this`m, this`cts
      ensures Valid() && cts == Go
      ensures m == old(m).(available := {CurrentSlot(m.mode, m.discard)}, pc := UploadCdc)
    {
      hide Ring, Wire, Payload, AllValid, Orderly, AtFrame;
      StartKeepsFlow(uartRxBuf[..], inp, outp, cts, Wire(frames), g.received, g.consumed);
      cts := Go;
      m := m.(available := m.available + {CurrentSlot(m.mode, m.discard)}, pc := UploadCdc);
    }

    /** The current frame is finished: its payload, if it is not discarded, goes to its endpoint. */
    method EndFrame(slot: Slots, len: u8, pc: Pc)
      requires Valid() && slot in m.available && Uploading(m.pc) && (Uploading(pc) || pc == Count)
      modifies this`m, this`g
      ensures Valid() && Uploaded(old(m), old(g), m, g, frames, slot, true, len, pc)
      ensures slot != Discard ==>
                old(m.frameBufLength) <= MAX_FRAME && frameBuf[..old(m.frameBufLength)] == frames[old(g.done)].payload
    {
      hide Flow, Ring, Wire, Payload, AllValid, Orderly, AtFrame, Loop, Bounded;
      FrameComplete(m, frameBuf[..], active, frames, g.done, g.received, g.consumed, slot, len);
      WaitingDone(uartRxBuf[..], inp, outp, cts, Wire(frames), g.received, g.consumed);
      EndDelivered(g, slot, m.mode, active, frames);
      ghost var payload := frames[g.done].payload;
      g := Ended(g, slot, payload);
      assert m.available - {slot} == {};
      m := m.(available := m.available - {slot}, frameBufLength := len, started := false, discard := false);
      NextPc(m, frameBuf[..], active, frames, g.done, g.received, g.consumed, pc);
      m := m.(pc := pc);
    }

    /** Only the position in the pass moves. */
    method MoveOn(pc: Pc)
      requires Valid() && Uploading(m.pc) && (Uploading(pc) || pc == Count)
      modifies this`m
      ensures Valid() && m == old(m).(pc := pc)
    {
      hide Flow, Ring, Wire, Payload, AllValid, Orderly, AtFrame, Loop, Bounded;
      NextPc(m, frameBuf[..], active, frames, g.done, g.received, g.consumed, pc);
      UploadPhase(m, frameBuf[..], active, frames, g.done, g.received, g.consumed);
      m := m.(pc := pc);
    }

    /** Uploads a CDC payload; a 64-byte packet asks for a zero-length one. Returns the packet queued on endpoint 2. */
    method UploadCdcStep() returns (ghost packet: seq<u8>)
      requires Valid() && m.pc == UploadCdc
      modifies this`m, this`g, this`ep2Busy, this`sendZeroLength
      ensures var sent := Cdc in old(m.available) && !old(ep2Busy);
              && Valid() && Uploaded(old(m), old(g), m, g, frames, Cdc, sent, 0, ZeroLength)
              && ep2Busy == (old(ep2Busy) || sent) && g.cdc == old(g.cdc) + packet && (!sent ==> packet == [])
              && sendZeroLength == (old(sendZeroLength) || |packet| == MAX_FRAME)
    {
      hide Flow, Ring, Wire, Payload, AllValid, Orderly, AtFrame, Loop, Bounded;
      if Cdc in m.available && !ep2Busy {
        packet := frameBuf[..];
        var len := m.frameBufLength;
        EndFrame(Cdc, 0, ZeroLength);
        packet := frameBuf[..len];
        ep2Busy := true;
        if len == MAX_FRAME {
          sendZeroLength := true;
        }
      } else {
        packet := [];
        MoveOn(ZeroLength);
      }
    }

    /** Queues a zero-length packet on endpoint 2 when one is due. */
    method ZeroLengthStep()
      requires Valid() && m.pc == ZeroLength
      modifies this`m, this`ep2Busy, this`sendZeroLength
      ensures var sent := old(sendZeroLength) && !old(ep2Busy);
              && Valid() && m == old(m).(pc := UploadFido)
              && ep2Busy == (old(ep2Busy) || sent) && sendZeroLength == (old(sendZeroLength) && !sent)
    {
      hide Flow, Ring, Wire, Payload, AllValid, Orderly, AtFrame, Loop, Bounded;
      MoveOn(UploadFido);
      if sendZeroLength && !ep2Busy {
        ep2Busy := true;
        sendZeroLength := false;
      }
    }

    method UploadFidoStep()
      requires Valid() && m.pc == UploadFido
      modifies this`m, this`g, this`ep3Busy
      ensures var sent := Fido in old(m.available) && !old(ep3Busy);
              && Valid() && Uploaded(old(m), old(g), m, g, frames, Fido, sent, 0, UploadCcid)
              && ep3Busy == (old(ep3Busy) || sent)
    {
      hide Flow, Ring, Wire, Payload, AllValid, Orderly, AtFrame, Loop, Bounded;
      if Fido in m.available && !ep3Busy {
        ep3Busy := true;
        EndFrame(Fido, 0, UploadCcid);
      } else {
        MoveOn(UploadCcid);
      }
    }

    method UploadCcidStep()
      requires Valid() && m.pc == UploadCcid
      modifies this`m, this`g, this`ep3Busy
      ensures var sent := Ccid in old(m.available) && !old(ep3Busy);
              && Valid() && Uploaded(old(m), old(g), m, g, frames, Ccid, sent, 0, UploadDebug)
              && ep3Busy == (old(ep3Busy) || sent)
    {
      hide Flow, Ring, Wire, Payload, AllValid, Orderly, AtFrame, Loop, Bounded;
      if Ccid in m.available && !ep3Busy {
        ep3Busy := true;
        EndFrame(Ccid, 0, UploadDebug);
      } else {
        MoveOn(UploadDebug);
      }
    }

    /** Uploads a debug payload, in a packet that zeros fill up to 64 bytes. */
    method UploadDebugStep() returns (packet: seq<u8>)
      requires Valid() && m.pc == UploadDebug
      modifies this`m, this`g, this`ep4Busy
      ensures var sent := Debug in old(m.available) && !old(ep4Busy);
              && Valid() && Uploaded(old(m), old(g), m, g, frames, Debug, sent, 0, HandleCh552)
              && ep4Busy == (old(ep4Busy) || sent)
              && (if sent then |packet| == MAX_FRAME && frames[old(g.done)].payload <= packet
                               && forall i :: |frames[old(g.done)].payload| <= i < MAX_FRAME ==> packet[i] == 0
                  else packet == [])
    {
      hide Flow, Ring, Wire, Payload, AllValid, Orderly, AtFrame, Loop, Bounded;
      packet := [];
      if Debug in m.available && !ep4Busy {
        FrameComplete(m, frameBuf[..], active, frames, g.done, g.received, g.consumed, Debug, 0);
        packet := frameBuf[..m.frameBufLength] + seq(MAX_FRAME - m.frameBufLength, _ => 0);
        ep4Busy := true;
        EndFrame(Debug, 0, HandleCh552);
      } else {
        MoveOn(HandleCh552);
      }
    }

    /** A frame for the controller itself; setting the endpoints stops the FPGA and resets. */
    method HandleCh552Step()
      requires Valid() && m.pc == HandleCh552
      modifies this`m, this`g, this`cts, frameBuf
      ensures Valid()
      ensures if Ch552 in old(m.available) && old(frameBuf[0]) == 1 then
                m == old(m).(pc := Halted) && g == old(g) && cts == Stopped(old(cts))
              else
                Uploaded(old(m), old(g), m, g, frames, Ch552, Ch552 in old(m.available), 0, EndDiscard) && cts == old(cts)
    {
      hide Flow, Ring, Wire, Payload, AllValid, Orderly, AtFrame, Loop, Bounded;
      if Ch552 in m.available {
        if frameBuf[0] == 1 {
          NextPc(m, frameBuf[..], active, frames, g.done, g.received, g.consumed, Halted);
          StopKeepsFlow(uartRxBuf[..], inp, outp, cts, Wire(frames), g.received, g.consumed, PhaseOf(m.started, m.remaining, m.pc));
          cts := Stopped(cts);
          m := m.(pc := Halted);
        } else {
          EndFrame(Ch552, 0, EndDiscard);
          IdleBuffer(m, frameBuf[..], active, frames, g.done, g.received, g.consumed);
          forall i | 0 <= i < MAX_FRAME {
            frameBuf[i] := 0;
          }
        }
      } else {
        MoveOn(EndDiscard);
      }
    }

    method EndDiscardStep()
      requires Valid() && m.pc == EndDiscard
      modifies this`m, this`g
      ensures var sent := Discard in old(m.available);
              Valid() && Uploaded(old(m), old(g), m, g, frames, Discard, sent, old(m.frameBufLength), Count)
    {
      hide Flow, Ring, Wire, Payload, AllValid, Orderly, AtFrame, Loop, Bounded;
      if Discard in m.available {
        EndFrame(Discard, m.frameBufLength, Count);
      } else {
        MoveOn(Count);
      }
    }

    /** One step of the main loop. */
    method MainStep()
      requires Valid()
      modifies this`outp, this`cts, this`m, this`sendZeroLength, this`ep2Busy, this`ep3Busy, this`ep4Busy, this`g, frameBuf
      ensures Valid() && g.received == old(g.received) && Follows(old(m.pc), m.pc)
    {
      hide Flow, Ring, Wire, Payload, AllValid, Orderly, AtFrame, Loop, Bounded;
      match m.pc
      case Count => CountStep();
      case Header => HeaderStep();
      case Copy => CopyStep();
      case Advance => AdvanceStep();
      case Start => StartStep();
      case UploadCdc => ghost var packet := UploadCdcStep();
      case ZeroLength => ZeroLengthStep();
      case UploadFido => UploadFidoStep();
      case UploadCcid => UploadCcidStep();
      case UploadDebug => var packet := UploadDebugStep();
      case HandleCh552 => HandleCh552Step();
      case EndDiscard => EndDiscardStep();
      case Halted =>
    }
  }

  /** Anything that can happen next. */
  datatype Event = UartByte | InToken(endpoint: nat) | LoopStep

  /** Every interleaving of the receive interrupt, USB IN completions and main-loop steps, while frames come in and CTS
      holds them back: the ring never fills up, each endpoint has been given a prefix of what the frames carry for it
      and nothing else, and an active endpoint all of it once everything has been taken and no frame waits. */
  method Run(c: Controller, schedule: seq<Event>, wire: seq<u8>)
    requires c.Valid() && c.g.received == [] && wire == Wire(c.frames)
    modifies c, c.uartRxBuf, c.frameBuf
    ensures c.Valid()
    ensures |c.g.received| - c.g.consumed < SIZE - 1
    ensures forall mode :: mode in PORTS ==> GivenTo(c.g, mode) <= Payload(c.frames, mode)
    ensures c.g.consumed == |wire| && !c.m.started ==>
              forall mode :: mode in PORTS && mode in c.active ==> GivenTo(c.g, mode) == Payload(c.frames, mode)
  {
    hide Flow, Ring, Wire, Payload, AllValid, Orderly, AtFrame, Loop, Bounded;
    var next := 0;
    for i := 0 to |schedule|
      invariant c.Valid() && next == |c.g.received|
    {
      FlowPrefix(c.uartRxBuf[..], c.inp, c.outp, c.cts, wire, c.g.received, c.g.consumed, PhaseOf(c.m.started, c.m.remaining, c.m.pc));
      match schedule[i] {
        case UartByte =>
          if next < |wire| && (c.cts.Go? || c.cts.budget > 0) {
            c.Uart1Isr(wire[next]);
            next := next + 1;
          }
        case InToken(endpoint) => c.InDone(endpoint);
        case LoopStep => c.MainStep();
      }
    }
    FlowPrefix(c.uartRxBuf[..], c.inp, c.outp, c.cts, wire, c.g.received, c.g.consumed, PhaseOf(c.m.started, c.m.remaining, c.m.pc));
    OrderlyPrefix(c.g, c.active, c.frames);
    if c.g.consumed == |wire| && !c.m.started {
      AllDelivered(c.m, c.frameBuf[..], c.active, c.frames, c.g);
    }
  }

  lemma OrderlyPrefix(g: History, active: set<u8>, frames: seq<Frame>)
    requires Orderly(g, active, frames)
    ensures forall mode :: mode in PORTS ==> GivenTo(g, mode) <= Payload(frames, mode)
  {
    hide Delivered, Payload;
    forall mode | mode in PORTS ensures GivenTo(g, mode) <= Payload(frames, mode) {
      DeliveredPrefix(GivenTo(g, mode), mode, active, frames, g.done);
    }
  }

  /** With everything taken from the ring and no frame waiting, everything has been delivered. */
  lemma AllDelivered(m: Main, frameBuf: seq<u8>, active: set<u8>, frames: seq<Frame>, g: History)
    requires Loop(m, frameBuf, active, frames, g.done, g.received, g.consumed) && Orderly(g, active, frames)
    requires !m.started && g.consumed == |Wire(frames)|
    ensures forall mode :: mode in PORTS && mode in active ==> GivenTo(g, mode) == Payload(frames, mode)
  {
    hide Wire, Payload;
    if g.done < |frames| {
      WireNext(frames, g.done);
      WirePrefix(frames, g.done + 1);
      assert false;
    }
    TakeAll(frames, g.done);
  }

  /** From write to the endpoints: with nothing written bare to the UART, every endpoint is given a prefix of what was
      written to it, and an active one all of it once everything has been taken and no frame waits. */
  method EndToEnd(writes: seq<Write>, reset_keep: set<u8>, schedule: seq<Event>) returns (c: Controller)
    requires Written(writes, IO_UART) == []
    ensures c.Valid() && |c.g.received| - c.g.consumed < SIZE - 1
    ensures forall mode :: mode in PORTS ==> GivenTo(c.g, mode) <= Written(writes, mode)
    ensures c.g.consumed == |EmittedAll(writes)| && !c.m.started ==>
              forall mode :: mode in PORTS && mode in c.active ==> GivenTo(c.g, mode) == Written(writes, mode)
  {
    hide Flow, Ring, Wire, Payload, Orderly, AtFrame, Loop, Bounded, FramesOf, Written, EmittedAll, GivenTo;
    var s := new Sender();
    WriteAll(s, writes);
    assert s.uart == EmittedAll(writes);
    FramesOnly(writes);
    FramesCarryWrites(writes, IO_CDC);
    FramesCarryWrites(writes, IO_FIDO);
    FramesCarryWrites(writes, IO_CCID);
    FramesCarryWrites(writes, IO_DEBUG);
    c := new Controller(reset_keep, FramesOf(writes));
    Run(c, schedule, s.uart);
  }

  /** Frames that the controller passes on or drops: FIDO only in 64 bytes, and no request to change the endpoints. */
  ghost predicate Passable(f: Frame, active: set<u8>)
  {
    && Known(f.mode) && f.Valid()
    && (f.mode == IO_FIDO && f.mode in active ==> |f.payload| == MAX_FRAME)
    && (f.mode == IO_CH552 && f.mode in active ==> f.payload[0] != 1)
  }

  /** Progress: one pass of the main loop that finds the rest of a frame in the ring and the endpoints free finishes the
      frame and gives its payload to the endpoint of its mode; if its payload was still in the ring, the FPGA may go on. */
  method Pass(c: Controller)
    requires c.Valid() && c.m.pc == Count && !c.ep2Busy && !c.ep3Busy && !c.ep4Busy
    requires c.g.done < |c.frames| && Passable(c.frames[c.g.done], c.active)
    requires |Wire(c.frames[..c.g.done + 1])| <= |c.g.received|
    modifies c`outp, c`cts, c`m, c`sendZeroLength, c`ep2Busy, c`ep3Busy, c`ep4Busy, c`g, c.frameBuf
    ensures c.Valid() && c.m.pc == Count && !c.m.started
    ensures c.cts == if old(c.m.started && c.m.remaining == 0) then old(c.cts) else Go
    ensures var f := c.frames[old(c.g.done)];
            c.g == Ended(old(c.g).(consumed := |Wire(c.frames[..old(c.g.done) + 1])|), CurrentSlot(f.mode, f.mode !in c.active), f.payload)
  {
    hide Flow, Ring, Wire, Payload, AllValid, Orderly, AtFrame, Loop, Bounded, Ended, Ready, Uploaded;
    ghost var f := c.frames[c.g.done];
    TakeFrame(c);
    if !c.m.discard {
      FirstByte(c.m, c.frameBuf[..], c.active, c.frames, c.g.done, c.g.received, c.g.consumed);
    }
    UploadFrame(c, CurrentSlot(f.mode, f.mode !in c.active));
  }

  /** The first half of a pass: header and payload leave the ring, as far as they are still there. */
  method TakeFrame(c: Controller)
    requires c.Valid() && c.m.pc == Count
    requires c.g.done < |c.frames| && Passable(c.frames[c.g.done], c.active)
    requires |Wire(c.frames[..c.g.done + 1])| <= |c.g.received|
    modifies c`outp, c`cts, c`m, c`g, c.frameBuf
    ensures c.Valid() && c.m.pc == UploadCdc && c.m.started && c.m.remaining == 0
    ensures c.cts == if old(c.m.started && c.m.remaining == 0) then old(c.cts) else Go
    ensures var f := c.frames[old(c.g.done)];
            c.g == old(c.g).(consumed := |Wire(c.frames[..old(c.g.done) + 1])|)
            && c.m.discard == (f.mode !in c.active) && c.m.available == {CurrentSlot(f.mode, c.m.discard)}
  {
    hide Wire, Controller.Valid;
    FrameInRing(c);
    c.CountStep();
    c.HeaderStep();
    c.CopyStep();
    if c.m.pc == Advance {
      c.AdvanceStep();
      c.StartStep();
    }
  }

  lemma FrameInRing(c: Controller)
    requires c.Valid() && c.m.pc == Count && c.g.done < |c.frames|
    requires |Wire(c.frames[..c.g.done + 1])| <= |c.g.received|
    ensures |Wire(c.frames[..c.g.done + 1])| == c.g.consumed + (if c.m.started then c.m.remaining as int else 2 + |c.frames[c.g.done].payload|)
    ensures c.m.discard == (c.m.started && c.frames[c.g.done].mode !in c.active)
    ensures c.m.started ==> c.m.mode == c.frames[c.g.done].mode && (c.m.remaining == 0 || c.m.remaining == |c.frames[c.g.done].payload|)
    ensures c.m.available == (if c.m.started && c.m.remaining == 0 then {CurrentSlot(c.m.mode, c.m.discard)} else {})
  {
    hide Flow, Ring, Wire, Payload, AllValid, Orderly, AtFrame, Loop, Bounded;
    WholeFrame(c.m, c.frameBuf[..], c.active, c.frames, c.g.done, c.g.received, c.g.consumed);
  }

  /** The second half: the waiting frame leaves FrameBuf. */
  method UploadFrame(c: Controller, ghost slot: Slots)
    requires c.Valid() && c.m.pc == UploadCdc && c.m.available == {slot} && c.g.done < |c.frames|
    requires !c.ep2Busy && !c.ep3Busy && !c.ep4Busy && (slot == Ch552 ==> c.frameBuf[0] != 1)
    modifies c`cts, c`m, c`sendZeroLength, c`ep2Busy, c`ep3Busy, c`ep4Busy, c`g, c.frameBuf
    ensures c.Valid() && c.m.pc == Count && !c.m.started && c.cts == old(c.cts)
    ensures c.g == Ended(old(c.g), slot, c.frames[old(c.g.done)].payload)
  {
    hide Flow, Ring, Wire, Payload, AllValid, Orderly, AtFrame, Loop, Bounded, Ended, Controller.Valid, Controller.InFlow, Controller.InLoop;
    UploadToHost(c, slot);
    var packet := c.UploadDebugStep();
    c.HandleCh552Step();
    c.EndDiscardStep();
  }

  /** The steps that serve endpoints 2 and 3. */
  method UploadToHost(c: Controller, ghost slot: Slots)
    requires c.Valid() && c.m.pc == UploadCdc && c.m.available == {slot} && c.g.done < |c.frames|
    requires !c.ep2Busy && !c.ep3Busy
    modifies c`m, c`sendZeroLength, c`ep2Busy, c`ep3Busy, c`g
    ensures c.Valid() && c.m.pc == UploadDebug
    ensures if slot == Cdc || slot == Fido || slot == Ccid then
              c.g == Ended(old(c.g), slot, c.frames[old(c.g.done)].payload) && c.m.available == {} && !c.m.started
            else
              c.g == old(c.g) && c.m.available == {slot}
  {
    hide Flow, Ring, Wire, Payload, AllValid, Orderly, AtFrame, Loop, Bounded, Ended, Controller.Valid, Controller.InFlow, Controller.InLoop;
    ghost var packet := c.UploadCdcStep();
    c.ZeroLengthStep();
    c.UploadFidoStep();
    c.UploadCcidStep();
  }

  lemma WholeFrame(m: Main, frameBuf: seq<u8>, active: set<u8>, frames: seq<Frame>, done: nat, received: seq<u8>, consumed: nat)
    requires Loop(m, frameBuf, active, frames, done, received, consumed) && m.pc == Count && done < |frames|
    requires |Wire(frames[..done + 1])| <= |received|
    ensures |Wire(frames[..done + 1])| == consumed + (if m.started then m.remaining as int else 2 + |frames[done].payload|)
    ensures m.discard == (m.started && frames[done].mode !in active)
    ensures m.started ==> m.mode == frames[done].mode && (m.remaining == 0 || m.remaining == |frames[done].payload|)
    ensures m.available == (if m.started && m.remaining == 0 then {CurrentSlot(m.mode, m.discard)} else {})
  {
    hide Wire;
    WireNext(frames, done);
  }

  /** While CTS is stopped the rest of the current frame is in the ring, so that the main loop can always go on. */
  lemma NotStuck(buf: seq<u8>, inp: int, outp: int, cts: Cts, frames: seq<Frame>, received: seq<u8>, consumed: nat, done: nat,
      m: Main, frameBuf: seq<u8>, active: set<u8>)
    requires AllValid(frames) && Flow(buf, inp, outp, cts, Wire(frames), received, consumed, PhaseOf(m.started, m.remaining, m.pc))
    requires Loop(m, frameBuf, active, frames, done, received, consumed) && cts.Stop? && m.pc != Halted
    ensures done < |frames| && |Wire(frames[..done + 1])| <= |received|
  {
    hide Wire, Ring, Payload;
    if !m.started {
      AllFrames(frames, done);
    }
    WireNext(frames, done);
    assert frames[done].Valid();
  }

  /** A stopped FPGA is started again: at most two passes with free endpoints are enough, whatever was under way. */
  method Unblock(c: Controller)
    requires c.Valid() && c.m.pc == Count && c.cts.Stop?
    requires forall i :: 0 <= i < |c.frames| ==> Passable(c.frames[i], c.active)
    modifies c`outp, c`cts, c`m, c`sendZeroLength, c`ep2Busy, c`ep3Busy, c`ep4Busy, c`g, c.frameBuf
    ensures c.Valid() && c.m.pc == Count && c.cts == Go && c.g.done > old(c.g.done)
  {
    hide Flow, Ring, Wire, Payload, AllValid, Orderly, AtFrame, Loop, Bounded, Passable;
    FreeEndpoints(c);
    NotStuck(c.uartRxBuf[..], c.inp, c.outp, c.cts, c.frames, c.g.received, c.g.consumed, c.g.done, c.m, c.frameBuf[..], c.active);
    Pass(c);
    if c.cts.Stop? {
      FreeEndpoints(c);
      NotStuck(c.uartRxBuf[..], c.inp, c.outp, c.cts, c.frames, c.g.received, c.g.consumed, c.g.done, c.m, c.frameBuf[..], c.active);
      Pass(c);
    }
  }

  /** The host has read all that is queued. */
  method FreeEndpoints(c: Controller)
    requires c.Valid()
    modifies c`ep2Busy, c`ep3Busy, c`ep4Busy
    ensures c.Valid() && !c.ep2Busy && !c.ep3Busy && !c.ep4Busy
  {
    hide Flow, Ring, Wire, Payload, AllValid, Orderly, AtFrame, Loop, Bounded;
    c.InDone(2);
    c.InDone(3);
    c.InDone(4);
  }

  lemma FirstByte(m: Main, frameBuf: seq<u8>, active: set<u8>, frames: seq<Frame>, done: nat, received: seq<u8>, consumed: nat)
    requires Loop(m, frameBuf, active, frames, done, received, consumed) && m.started && !m.discard && m.remaining == 0 && done < |frames|
    ensures |frameBuf| == MAX_FRAME && (|frames[done].payload| > 0 ==> frameBuf[0] == frames[done].payload[0])
  {
    hide AtFrame;
    assert frameBuf[..m.frameBufLength] == frames[done].payload;
  }

  lemma UploadPhase(m: Main, frameBuf: seq<u8>, active: set<u8>, frames: seq<Frame>, done: nat, received: seq<u8>, consumed: nat)
    requires Loop(m, frameBuf, active, frames, done, received, consumed) && Uploading(m.pc)
    ensures forall pc: Pc :: pc != Start && pc != Halted ==> PhaseOf(m.started, m.remaining, pc) == PhaseOf(m.started, m.remaining, m.pc)
  {
  }

  /** Between frames the contents of FrameBuf do not matter. */
  lemma IdleBuffer(m: Main, frameBuf: seq<u8>, active: set<u8>, frames: seq<Frame>, done: nat, received: seq<u8>, consumed: nat)
    requires Loop(m, frameBuf, active, frames, done, received, consumed) && !m.started && Uploading(m.pc)
    ensures forall b: seq<u8> :: Loop(m, b, active, frames, done, received, consumed)
  {
    hide AtFrame;
  }

  lemma FlowPrefix(buf: seq<u8>, inp: int, outp: int, cts: Cts, wire: seq<u8>, received: seq<u8>, consumed: nat, p: Phase)
    requires Flow(buf, inp, outp, cts, wire, received, consumed, p)
    ensures received <= wire && consumed <= |received| && |received| - consumed <= 138
  {
  }

  lemma DeliveredPrefix(given: seq<u8>, mode: u8, active: set<u8>, frames: seq<Frame>, done: nat)
    requires Delivered(given, mode, active, frames, done)
    ensures given <= Payload(frames, mode)
  {
    hide Payload;
    if mode in active {
      PayloadPrefix(frames, done, mode);
    }
  }

  lemma WaitingDone(buf: seq<u8>, inp: int, outp: int, cts: Cts, wire: seq<u8>, received: seq<u8>, consumed: nat)
    requires Flow(buf, inp, outp, cts, wire, received, consumed, Waiting)
    ensures Flow(buf, inp, outp, cts, wire, received, consumed, NoFrame)
  {
    hide Ring;
  }

  lemma FlowRange(buf: seq<u8>, inp: int, outp: int, cts: Cts, wire: seq<u8>, received: seq<u8>, consumed: nat, p: Phase)
    requires Flow(buf, inp, outp, cts, wire, received, consumed, p)
    ensures 0 <= inp < SIZE && 0 <= outp < SIZE
  {
  }

  lemma StartKeepsFlow(buf: seq<u8>, inp: int, outp: int, cts: Cts, wire: seq<u8>, received: seq<u8>, consumed: nat)
    requires Flow(buf, inp, outp, cts, wire, received, consumed, PayloadTaken)
    ensures Flow(buf, inp, outp, Go, wire, received, consumed, Waiting)
  {
    hide Ring;
  }

  /** When the count says so, the whole payload of the current frame is at the output pointer. */
  lemma WholePayload(buf: seq<u8>, inp: u8, outp: u8, cts: Cts, frames: seq<Frame>, received: seq<u8>, consumed: nat, done: nat,
      p: Phase, m: Main, frameBuf: seq<u8>, active: set<u8>)
    requires AllValid(frames) && Flow(buf, inp, outp, cts, Wire(frames), received, consumed, p)
    requires Loop(m, frameBuf, active, frames, done, received, consumed) && m.started && m.remaining > 0 && m.byteCount >= m.remaining
    requires m.pc == Copy || m.pc == Advance
    ensures done < |frames| && 1 <= m.remaining <= MAX_FRAME && m.remaining == |frames[done].payload|
    ensures m.remaining as int <= |received| - consumed && received[consumed..][..m.remaining] == frames[done].payload
    ensures Ring(buf, inp, outp, received[consumed..])
  {
    hide Ring, Wire;
    assert frames[done].Valid();
    FrameAt(frames, done, received);
    assert received[consumed..][..m.remaining] == received[consumed..consumed + m.remaining];
  }

  lemma FlowCount(buf: seq<u8>, inp: u8, outp: u8, cts: Cts, wire: seq<u8>, received: seq<u8>, consumed: nat, p: Phase)
    requires Flow(buf, inp, outp, cts, wire, received, consumed, p)
    ensures inp < SIZE && outp < SIZE && ByteCount(inp, outp) == |received| - consumed
  {
    ByteCountIsPending(buf, inp, outp, received[consumed..]);
  }

  lemma StopKeepsFlow(buf: seq<u8>, inp: int, outp: int, cts: Cts, wire: seq<u8>, received: seq<u8>, consumed: nat, p: Phase)
    requires Flow(buf, inp, outp, cts, wire, received, consumed, p)
    ensures Flow(buf, inp, outp, Stopped(cts), wire, received, consumed, Dead)
  {
    hide Ring;
  }

  /** With no frame under way and two bytes in the ring, these are the mode and length of the next frame. */
  lemma NextHeader(buf: seq<u8>, inp: u8, outp: u8, cts: Cts, frames: seq<Frame>, received: seq<u8>, consumed: nat, done: nat,
      p: Phase, m: Main, frameBuf: seq<u8>, active: set<u8>)
    requires AllValid(frames) && Flow(buf, inp, outp, cts, Wire(frames), received, consumed, p) && p == NoFrame
    requires Loop(m, frameBuf, active, frames, done, received, consumed) && !m.started && m.pc == Header && m.byteCount >= 2
    ensures |buf| == SIZE && outp < SIZE && done < |frames| && 1 <= |frames[done].payload| <= MAX_FRAME
    ensures buf[outp] == frames[done].mode && buf[IncrementPointer(outp, 1)] == |frames[done].payload|
    ensures Flow(buf, inp, IncrementPointer(outp, 2), cts, Wire(frames), received, consumed + 2, HeaderTaken)
    ensures AtFrame(frames, done, received, consumed + 2, true, frames[done].mode, |frames[done].payload|)
  {
    hide Wire;
    FrameAt(frames, done, received);
    assert frames[done].Valid();
    assert Slot(buf, outp, 0) == received[consumed..][0] && Slot(buf, outp, 1) == received[consumed..][1];
    Taken(buf, inp, outp, cts, Wire(frames), received, consumed, p, 2, HeaderTaken);
  }
}
