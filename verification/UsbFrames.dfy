/** The USB Mode Protocol on the wire, and its sender on the FPGA (libcommon/io.c, write and write_with_header). */
module UsbFrames {
  import opened Words

  // endpoint bits shared by both sides
  const IO_UART: u8 := 0x01
  const IO_QEMU: u8 := 0x02
  const IO_CH552: u8 := 0x04
  const IO_CDC: u8 := 0x08
  const IO_FIDO: u8 := 0x10
  const IO_CCID: u8 := 0x20
  const IO_DEBUG: u8 := 0x40

  const PACKET_SIZE: nat := 64

  /** One frame: a mode byte, a length byte and the payload. */
  datatype Frame = Frame(mode: u8, payload: seq<u8>)
  {
    predicate Valid() {
      1 <= |payload| <= PACKET_SIZE
    }
  }

  function Encode(f: Frame): (b: seq<u8>)
    ensures |b| == 2 + |f.payload|
  {
    [f.mode, |f.payload| % 0x100] + f.payload
  }

  ghost predicate AllValid(frames: seq<Frame>)
  {
    forall i :: 0 <= i < |frames| ==> frames[i].Valid()
  }

  /** The bytes of some frames, in order. */
  ghost function Wire(frames: seq<Frame>): seq<u8>
  {
    if |frames| == 0 then [] else Wire(frames[..|frames| - 1]) + Encode(frames[|frames| - 1])
  }

  /** What some frames carry for one endpoint. */
  ghost function Payload(frames: seq<Frame>, mode: u8): seq<u8>
  {
    if |frames| == 0 then []
    else
      var f := frames[|frames| - 1];
      Payload(frames[..|frames| - 1], mode) + (if f.mode == mode then f.payload else [])
  }

  lemma {:induction false} WireConcat(a: seq<Frame>, b: seq<Frame>)
    ensures Wire(a + b) == Wire(a) + Wire(b)
  {
    if |b| == 0 {
      assert a + b == a;
    } else {
      var b', last := b[..|b| - 1], b[|b| - 1];
      WireConcat(a, b');
      assert (a + b)[..|a + b| - 1] == a + b' && (a + b)[|a + b| - 1] == last;
      assert Wire(a + b) == Wire(a + b') + Encode(last);
      assert Wire(b) == Wire(b') + Encode(last);
    }
  }

  lemma {:induction false} PayloadConcat(a: seq<Frame>, b: seq<Frame>, mode: u8)
    ensures Payload(a + b, mode) == Payload(a, mode) + Payload(b, mode)
  {
    if |b| == 0 {
      assert a + b == a;
    } else {
      var b' := b[..|b| - 1];
      PayloadConcat(a, b', mode);
      assert (a + b)[..|a + b| - 1] == a + b';
    }
  }

  /** The first n frames, and one more. */
  lemma WireNext(frames: seq<Frame>, n: nat)
    requires n < |frames|
    ensures Wire(frames[..n + 1]) == Wire(frames[..n]) + Encode(frames[n])
  {
    assert frames[..n + 1][..n] == frames[..n];
  }

  lemma PayloadNext(frames: seq<Frame>, n: nat, mode: u8)
    requires n < |frames|
    ensures Payload(frames[..n + 1], mode) == Payload(frames[..n], mode) + (if frames[n].mode == mode then frames[n].payload else [])
  {
    assert frames[..n + 1][..n] == frames[..n];
  }

  lemma WirePrefix(frames: seq<Frame>, n: nat)
    requires n <= |frames|
    ensures Wire(frames[..n]) <= Wire(frames)
  {
    hide Wire;
    WireConcat(frames[..n], frames[n..]);
    assert frames[..n] + frames[n..] == frames;
  }

  lemma PayloadPrefix(frames: seq<Frame>, n: nat, mode: u8)
    requires n <= |frames|
    ensures Payload(frames[..n], mode) <= Payload(frames, mode)
  {
    hide Payload;
    PayloadConcat(frames[..n], frames[n..], mode);
    assert frames[..n] + frames[n..] == frames;
  }

  lemma AllFrames(frames: seq<Frame>, n: nat)
    requires n <= |frames| && |Wire(frames[..n])| < |Wire(frames)|
    ensures n < |frames|
  {
    hide Wire;
    TakeAll(frames, n);
  }

  lemma TakeAll(frames: seq<Frame>, n: nat)
    requires n <= |frames|
    ensures n == |frames| ==> frames[..n] == frames
  {
  }

  /** More bytes than the first n frames have: frame n follows, header first. */
  lemma FrameAt(frames: seq<Frame>, n: nat, received: seq<u8>)
    requires AllValid(frames) && n <= |frames| && received <= Wire(frames)
    requires |received| > |Wire(frames[..n])|
    ensures n < |frames|
    ensures received[|Wire(frames[..n])|] == frames[n].mode
    ensures |received| > |Wire(frames[..n])| + 1 ==> received[|Wire(frames[..n])| + 1] == |frames[n].payload|
    ensures |received| >= |Wire(frames[..n])| + 2 + |frames[n].payload| ==>
              received[|Wire(frames[..n])| + 2..|Wire(frames[..n])| + 2 + |frames[n].payload|] == frames[n].payload
  {
    hide Wire;
    AllFrames(frames, n);
    WireNext(frames, n);
    WirePrefix(frames, n + 1);
    var base, f := |Wire(frames[..n])|, frames[n];
    var w := Wire(frames);
    assert w[base..base + 2 + |f.payload|] == Encode(f);
    if |received| >= base + 2 + |f.payload| {
      assert received[base + 2..base + 2 + |f.payload|] == w[base..base + 2 + |f.payload|][2..] == Encode(f)[2..] == f.payload;
    }
  }

  // ---------- the sender ----------

  /** The frames that write() cuts some data into. */
  ghost function Chunks(dest: u8, data: seq<u8>): (f: seq<Frame>)
  {
    if |data| == 0 then []
    else
      var n := if |data| < PACKET_SIZE then |data| else PACKET_SIZE;
      [Frame(dest, data[..n])] + Chunks(dest, data[n..])
  }

  /** Every frame carries 1 to 64 bytes. */
  lemma {:induction false} ChunksFit(dest: u8, data: seq<u8>)
    ensures AllValid(Chunks(dest, data))
  {
    if |data| > 0 {
      var n := if |data| < PACKET_SIZE then |data| else PACKET_SIZE;
      ChunksFit(dest, data[n..]);
    }
  }

  /** Cutting keeps the data. */
  lemma {:induction false} ChunksCarryData(dest: u8, data: seq<u8>)
    ensures Payload(Chunks(dest, data), dest) == data
  {
    if |data| > 0 {
      var n := if |data| < PACKET_SIZE then |data| else PACKET_SIZE;
      var first := Frame(dest, data[..n]);
      assert Chunks(dest, data) == [first] + Chunks(dest, data[n..]);
      hide Payload, Chunks;
      ChunksCarryData(dest, data[n..]);
      OnePayload(first, dest);
      PayloadConcat([first], Chunks(dest, data[n..]), dest);
      assert data == data[..n] + data[n..];
    }
  }

  lemma {:induction false} ChunksCarryNothingElse(dest: u8, data: seq<u8>, mode: u8)
    requires mode != dest
    ensures Payload(Chunks(dest, data), mode) == []
  {
    if |data| > 0 {
      var n := if |data| < PACKET_SIZE then |data| else PACKET_SIZE;
      var first := [Frame(dest, data[..n])];
      assert first[..0] == [];
      ChunksCarryNothingElse(dest, data[n..], mode);
      PayloadConcat(first, Chunks(dest, data[n..]), mode);
    }
  }

  /** What the FPGA sends: to the UART, and to the debug port of the emulator. */
  class Sender {
    var uart: seq<u8>
    var qemu: seq<u8>

    constructor ()
      ensures uart == [] && qemu == []
    {
      uart, qemu := [], [];
    }

    method WriteByte(b: u8)
      modifies this`uart
      ensures uart == old(uart) + [b]
    {
      uart := uart + [b];
    }

    /** write_with_header */
    method WriteWithHeader(dest: u8, buf: seq<u8>)
      requires |buf| <= PACKET_SIZE
      modifies this`uart
      ensures uart == old(uart) + Encode(Frame(dest, buf))
    {
      ghost var start := uart;
      WriteByte(dest);
      WriteByte(|buf|);
      assert start + [dest] + [|buf|] + buf[..0] == uart;
      for i := 0 to |buf|
        invariant uart == start + [dest] + [|buf|] + buf[..i]
      {
        WriteByte(buf[i]);
        assert buf[..i + 1] == buf[..i] + [buf[i]];
      }
      assert buf[..|buf|] == buf;
    }

    /** write: raw bytes to the UART or the emulator, and frames of at most 64 bytes to all other endpoints. */
    method Write(dest: u8, data: seq<u8>)
      modifies this
      ensures dest == IO_QEMU ==> qemu == old(qemu) + data && uart == old(uart)
      ensures dest == IO_UART ==> uart == old(uart) + data && qemu == old(qemu)
      ensures dest != IO_QEMU && dest != IO_UART ==>
                qemu == old(qemu) && uart == old(uart) + Wire(Chunks(dest, data))
    {
      if dest == IO_QEMU {
        qemu := qemu + data;
        return;
      } else if dest == IO_UART {
        uart := uart + data;
        return;
      }
      WriteFrames(dest, data);
    }

    /** The loop of write. */
    method WriteFrames(dest: u8, data: seq<u8>)
      modifies this`uart
      ensures uart == old(uart) + Wire(Chunks(dest, data))
    {
      hide Wire;
      var rest := data;
      ghost var sent := [];
      NothingSent(uart);
      while |rest| > 0
        invariant uart == old(uart) + Wire(sent) && sent + Chunks(dest, rest) == Chunks(dest, data)
      {
        var len := if |rest| < PACKET_SIZE then |rest| else PACKET_SIZE;
        ghost var f := Frame(dest, rest[..len]);
        WriteWithHeader(dest, rest[..len]);
        OneFrame(f);
        WireConcat(sent, [f]);
        assert sent + Chunks(dest, rest) == (sent + [f]) + Chunks(dest, rest[len..]);
        sent := sent + [f];
        rest := rest[len..];
      }
      assert sent + [] == sent;
    }
  }

  lemma NothingSent(uart: seq<u8>)
    ensures uart == uart + Wire([])
  {
  }

  lemma OnePayload(f: Frame, mode: u8)
    ensures Payload([f], mode) == if f.mode == mode then f.payload else []
  {
    assert [f][..0] == [];
  }

  lemma OneFrame(f: Frame)
    ensures Wire([f]) == Encode(f)
  {
    assert [f][..0] == [];
  }

  // ---------- several writes ----------

  datatype Write = Write(dest: u8, data: seq<u8>)

  /** Endpoints whose data travels in frames: neither the bare UART nor the port of the emulator. */
  predicate InFrames(dest: u8)
  {
    dest != IO_UART && dest != IO_QEMU
  }

  ghost function FramesOf(w: seq<Write>): seq<Frame>
  {
    if |w| == 0 then []
    else
      var last := w[|w| - 1];
      FramesOf(w[..|w| - 1]) + (if InFrames(last.dest) then Chunks(last.dest, last.data) else [])
  }

  /** All data written to one endpoint, in order. */
  ghost function Written(w: seq<Write>, dest: u8): seq<u8>
  {
    if |w| == 0 then []
    else Written(w[..|w| - 1], dest) + (if w[|w| - 1].dest == dest then w[|w| - 1].data else [])
  }

  /** The bytes that one write puts on the UART. */
  ghost function Emitted(last: Write): seq<u8>
  {
    if last.dest == IO_UART then last.data else if last.dest == IO_QEMU then [] else Wire(Chunks(last.dest, last.data))
  }

  ghost function EmittedAll(w: seq<Write>): seq<u8>
  {
    if |w| == 0 then [] else EmittedAll(w[..|w| - 1]) + Emitted(w[|w| - 1])
  }

  /** The sender, called once for each write, emits exactly that. */
  method WriteAll(s: Sender, w: seq<Write>)
    modifies s
    ensures s.uart == old(s.uart) + EmittedAll(w) && s.qemu == old(s.qemu) + Written(w, IO_QEMU)
  {
    hide Wire, Chunks, EmittedAll, Written;
    NothingEmitted();
    assert w[..|w|] == w;
    for i := 0 to |w|
      invariant s.uart == old(s.uart) + EmittedAll(w[..i]) && s.qemu == old(s.qemu) + Written(w[..i], IO_QEMU)
    {
      EmittedNext(w, i);
      s.Write(w[i].dest, w[i].data);
    }
  }

  lemma NothingEmitted()
    ensures EmittedAll([]) == [] && Written([], IO_QEMU) == []
  {
  }

  lemma EmittedNext(w: seq<Write>, i: nat)
    requires i < |w|
    ensures EmittedAll(w[..i + 1]) == EmittedAll(w[..i]) + Emitted(w[i])
    ensures Written(w[..i + 1], IO_QEMU) == Written(w[..i], IO_QEMU) + (if w[i].dest == IO_QEMU then w[i].data else [])
  {
    assert w[..i + 1][..i] == w[..i];
  }

  /** Raw data is all that the UART carries besides frames. */
  lemma {:induction false} RawBytesCount(w: seq<Write>)
    ensures |EmittedAll(w)| == |Wire(FramesOf(w))| + |Written(w, IO_UART)|
    ensures Written(w, IO_UART) == [] ==> EmittedAll(w) == Wire(FramesOf(w))
  {
    if |w| > 0 {
      var last, before := w[|w| - 1], w[..|w| - 1];
      RawBytesCount(before);
      hide Wire, Chunks;
      WireConcat(FramesOf(before), if InFrames(last.dest) then Chunks(last.dest, last.data) else []);
      WireOfNone();
    }
  }

  lemma WireOfNone()
    ensures Wire([]) == []
  {
  }

  /** So the UART carries the frames of the writes and nothing else if and only if nothing is written to it bare. */
  lemma FramesOnly(w: seq<Write>)
    ensures EmittedAll(w) == Wire(FramesOf(w)) <==> Written(w, IO_UART) == []
  {
    hide Wire, FramesOf, EmittedAll, Written;
    RawBytesCount(w);
  }

  /** Bare data can look like a frame: these three bytes are one for CDC, to which nothing was written. */
  lemma BareDataLooksFramed()
    ensures var w := [Write(IO_UART, [0x08, 0x01, 0x41])];
            EmittedAll(w) == Wire([Frame(IO_CDC, [0x41])]) && Written(w, IO_CDC) == [] && FramesOf(w) == []
  {
    var w := [Write(IO_UART, [0x08, 0x01, 0x41])];
    assert w[..0] == [];
    OneFrame(Frame(IO_CDC, [0x41]));
  }

  /** The frames of a series of writes carry exactly what was written to each endpoint that uses frames. */
  lemma {:induction false} FramesCarryWrites(w: seq<Write>, dest: u8)
    ensures AllValid(FramesOf(w)) && Payload(FramesOf(w), dest) == if InFrames(dest) then Written(w, dest) else []
  {
    if |w| > 0 {
      var last := w[|w| - 1];
      FramesCarryWrites(w[..|w| - 1], dest);
      if InFrames(last.dest) {
        ChunksFit(last.dest, last.data);
        ChunksCarryData(last.dest, last.data);
        if last.dest != dest {
          ChunksCarryNothingElse(last.dest, last.data, dest);
        }
        PayloadConcat(FramesOf(w[..|w| - 1]), Chunks(last.dest, last.data), dest);
      } else {
        assert FramesOf(w[..|w| - 1]) + [] == FramesOf(w[..|w| - 1]);
      }
    }
  }
}
