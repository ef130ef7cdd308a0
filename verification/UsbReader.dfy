/** Reading from the USB endpoints on the FPGA (libcommon/io.c, readselect, read and discard). */
module UsbReader {
  import opened Words
  import opened UsbFrames

  datatype Selection = Selected(endpoint: u8, len: u8) | Refused | Blocked

  /** Whether an endpoint is among those asked for. */
  predicate Wanted(endpoint: u8, mask: set<u8>)
  {
    endpoint in mask
  }

  /** Payloads of any length that one byte can count, also none. */
  ghost predicate AllCounted(frames: seq<Frame>)
  {
    forall i :: 0 <= i < |frames| ==> |frames[i].payload| < 0x100
  }

  /** Frames as they come from the USB controller, after the `rest` of the payload that is being read. */
  ghost predicate Framed(rx: seq<u8>, endpoint: u8, len: u8, current: u8, rest: seq<u8>, frames: seq<Frame>)
  {
    AllCounted(frames) && rx == rest + Wire(frames) && len == |rest| && (len > 0 ==> endpoint == current)
  }

  /** The number of frames before the first one for a wanted endpoint. */
  ghost function Skipped(frames: seq<Frame>, mask: set<u8>): (n: nat)
    ensures n <= |frames|
    ensures forall i :: 0 <= i < n ==> !Wanted(frames[i].mode, mask)
    ensures n < |frames| ==> Wanted(frames[n].mode, mask)
  {
    if |frames| == 0 || Wanted(frames[0].mode, mask) then 0 else 1 + Skipped(frames[1..], mask)
  }

  lemma WireFirst(frames: seq<Frame>)
    requires |frames| > 0
    ensures Wire(frames) == Encode(frames[0]) + Wire(frames[1..])
  {
    hide Wire;
    assert frames == [frames[0]] + frames[1..];
    WireConcat([frames[0]], frames[1..]);
    OneFrame(frames[0]);
  }

  lemma WireEmpty()
    ensures Wire([]) == []
  {
  }

  class Reader {
    /** Bytes that the UART will still deliver. */
    var rx: seq<u8>
    var endpoint: u8
    var len: u8

    constructor (rx: seq<u8>)
      ensures this.rx == rx && len == 0
    {
      this.rx := rx;
      endpoint, len := 0, 0;
    }

    method ReadByte() returns (b: u8)
      requires |rx| > 0
      modifies this`rx
      ensures b == old(rx)[0] && rx == old(rx)[1..]
    {
      b := rx[0];
      rx := rx[1..];
    }

    /** discard: what is left of the current payload. */
    method Discard(nbytes: nat) returns (n: nat)
      requires |rx| >= len
      modifies this`rx, this`len
      ensures n == if nbytes < old(len) then nbytes else old(len)
      ensures rx == old(rx)[n..] && len == old(len) - n
    {
      n := 0;
      var stop := if nbytes < len then nbytes else len;
      while n < stop
        invariant n <= stop && stop <= old(len) && len == old(len) - n && rx == old(rx)[n..]
      {
        var b := ReadByte();
        len := len - 1;
        n := n + 1;
      }
    }

    /** The header of the next frame. */
    method ReadHeader(ghost current: u8, ghost rest: seq<u8>, ghost frames: seq<Frame>)
      requires Framed(rx, endpoint, len, current, rest, frames) && len == 0 && |frames| > 0 && |rx| >= 2
      modifies this
      ensures Framed(rx, endpoint, len, frames[0].mode, frames[0].payload, frames[1..]) && endpoint == frames[0].mode
    {
      hide Wire, Encode;
      FirstFrame(rx, frames);
      endpoint := ReadByte();
      len := ReadByte();
    }

    /** What is left of an unwanted frame. */
    method DiscardRest(ghost current: u8, ghost rest: seq<u8>, ghost frames: seq<Frame>)
      requires Framed(rx, endpoint, len, current, rest, frames)
      modifies this`rx, this`len
      ensures Framed(rx, endpoint, len, current, [], frames) && len == 0
    {
      hide Wire;
      assert (rest + Wire(frames))[len..] == Wire(frames);
      var discarded := Discard(len);
    }

    /** readselect: skips exactly the frames before the first wanted one, and leaves its payload to be read. Blocked
        when no such frame is on its way. */
    method ReadSelect(mask: set<u8>, ghost current: u8, ghost rest: seq<u8>, ghost frames: seq<Frame>) returns (r: Selection)
      requires Framed(rx, endpoint, len, current, rest, frames)
      modifies this
      ensures (IO_UART in mask || IO_QEMU in mask) <==> r == Refused
      ensures r == Refused ==> rx == old(rx) && len == old(len) && endpoint == old(endpoint)
      ensures r != Refused && old(len) > 0 && Wanted(current, mask) ==> r == Selected(current, old(len)) && rx == old(rx) && len == old(len)
      ensures r != Refused && !(old(len) > 0 && Wanted(current, mask)) ==>
                var n := Skipped(frames, mask);
                if n == |frames| then r == Blocked
                else r == Selected(frames[n].mode, |frames[n].payload|)
                     && Framed(rx, endpoint, len, frames[n].mode, frames[n].payload, frames[n + 1..])
    {
      hide Wire, Encode, Framed;
      FramedLength(rx, endpoint, len, current, rest, frames);
      if IO_UART in mask || IO_QEMU in mask {
        return Refused;
      }
      ghost var left, n := frames, 0;
      ghost var cur, remainder := current, rest;
      while true
        invariant Framed(rx, endpoint, len, cur, remainder, left)
        invariant n <= |frames| && left == frames[n..]
        invariant len == 0 || (len == old(len) && rx == old(rx) && cur == current && remainder == rest && n == 0)
        invariant len == 0 ==> !(old(len) > 0 && Wanted(current, mask))
        invariant n + Skipped(left, mask) == Skipped(frames, mask)
        decreases |left|, len
      {
        if len == 0 {
          NothingLeft(rx, endpoint, cur, remainder, left);
          if |rx| < 2 {
            return Blocked;
          }
          ReadHeader(cur, remainder, left);
          cur, remainder := left[0].mode, left[0].payload;
          left := left[1..];
          n := n + 1;
        }
        FramedLength(rx, endpoint, len, cur, remainder, left);
        if Wanted(endpoint, mask) {
          return Selected(endpoint, len);
        }
        DiscardRest(cur, remainder, left);
        remainder := [];
      }
    }

    /** read: up to nbytes of the current endpoint's data. The length left is counted in one byte and is not checked.
        Bytes that have not come yet are waited for. */
    method Read(src: u8, bufsize: nat, nbytes: nat) returns (n: int, buf: seq<u8>)
      requires nbytes <= bufsize && src == endpoint ==> |rx| >= nbytes
      modifies this`rx, this`len
      ensures nbytes > bufsize || src in {0, IO_UART, IO_QEMU} ==> n == -1
      ensures !(nbytes > bufsize || src in {0, IO_UART, IO_QEMU}) && src != endpoint ==> n == 0
      ensures !(nbytes > bufsize || src in {0, IO_UART, IO_QEMU}) && src == endpoint ==> n == nbytes
      ensures n <= 0 ==> buf == [] && rx == old(rx) && len == old(len)
      ensures n > 0 ==> buf == old(rx)[..n] && rx == old(rx)[n..] && len == (old(len) - n) % 0x100
    {
      buf := [];
      if nbytes > bufsize {
        return -1, buf;
      }
      if src == 0 || src == IO_UART || src == IO_QEMU {
        return -1, buf;
      }
      if src != endpoint {
        return 0, buf;
      }
      n := 0;
      while n < nbytes
        invariant 0 <= n <= nbytes && buf == old(rx)[..n] && rx == old(rx)[n..] && len == (old(len) - n) % 0x100
      {
        var b := ReadByte();
        buf := buf + [b];
        len := (len - 1) % 0x100;
        n := n + 1;
      }
    }
  }

  // ---------- reading too much ----------

  /** Reading n bytes takes nothing of a later frame if and only if n does not go past the current payload. */
  lemma ReadStaysInFrame(rx: seq<u8>, endpoint: u8, len: u8, current: u8, rest: seq<u8>, frames: seq<Frame>, n: nat)
    requires Framed(rx, endpoint, len, current, rest, frames) && n <= |rx|
    ensures Framed(rx[n..], endpoint, (len - n) % 0x100, current, if n <= |rest| then rest[n..] else [], frames) <==> n <= len
  {
    hide Wire;
    if n <= len {
      assert rx[n..] == rest[n..] + Wire(frames);
    } else {
      assert |rx[n..]| < |Wire(frames)|;
    }
  }

  /** After the bytes still counted, whole frames follow. */
  ghost predicate InStep(rx: seq<u8>, len: u8, frames: seq<Frame>)
  {
    len as int <= |rx| && exists k :: 0 <= k <= |frames| && rx[len..] == Wire(frames[k..])
  }

  /** How far past the current payload the reader believes the next frame to begin, after reading n bytes: the count
      wraps at 256. */
  function Overrun(n: nat, len: u8): int
  {
    if n <= len then 0 else (n - len + 0xff) / 0x100 * 0x100
  }

  lemma CountWraps(n: nat, len: u8)
    ensures n + (len - n) % 0x100 == len + Overrun(n, len)
  {
  }

  /** The reader is in step with the frames again if and only if some of them end exactly where it believes. */
  lemma ReadKeepsStep(rx: seq<u8>, endpoint: u8, len: u8, current: u8, rest: seq<u8>, frames: seq<Frame>, n: nat)
    requires Framed(rx, endpoint, len, current, rest, frames) && n <= |rx|
    ensures InStep(rx[n..], (len - n) % 0x100, frames) <==> exists k :: 0 <= k <= |frames| && |Wire(frames[..k])| == Overrun(n, len)
  {
    hide Wire, Overrun;
    CountWraps(n, len);
    forall k | 0 <= k <= |frames|
      ensures (len - n) % 0x100 <= |rx| - n && rx[n..][(len - n) % 0x100..] == Wire(frames[k..]) <==> |Wire(frames[..k])| == Overrun(n, len)
    {
      BoundaryAt(rx, rest, frames, n, (len - n) % 0x100, k);
    }
  }

  lemma BoundaryAt(rx: seq<u8>, rest: seq<u8>, frames: seq<Frame>, n: nat, left: nat, k: nat)
    requires rx == rest + Wire(frames) && n <= |rx| && k <= |frames|
    ensures left <= |rx| - n && rx[n..][left..] == Wire(frames[k..]) <==> |Wire(frames[..k])| == n + left - |rest|
  {
    hide Wire;
    assert frames == frames[..k] + frames[k..];
    WireConcat(frames[..k], frames[k..]);
    if left <= |rx| - n {
      assert rx[n..][left..] == rx[n + left..];
    }
    if |Wire(frames[..k])| == n + left - |rest| {
      assert rx[n + left..] == Wire(frames[k..]);
    }
  }

  /** One byte too many: with one byte left and a short frame behind it, the reader is lost. */
  lemma OneByteTooMany()
    ensures var rx := [0x55, IO_CDC, 0x01, 0x41];
            var frames := [Frame(IO_CDC, [0x41])];
            Framed(rx, IO_CDC, 1, IO_CDC, [0x55], frames) && !InStep(rx[2..], (1 - 2) % 0x100, frames)
  {
    OneFrame(Frame(IO_CDC, [0x41]));
  }

  lemma FramedLength(rx: seq<u8>, endpoint: u8, len: u8, current: u8, rest: seq<u8>, frames: seq<Frame>)
    requires Framed(rx, endpoint, len, current, rest, frames)
    ensures len == |rest| && (len > 0 ==> endpoint == current)
  {
  }

  /** Between frames there is a frame to come if and only if two bytes are. */
  lemma NothingLeft(rx: seq<u8>, endpoint: u8, current: u8, rest: seq<u8>, frames: seq<Frame>)
    requires Framed(rx, endpoint, 0, current, rest, frames)
    ensures |rx| >= 2 <==> |frames| > 0
  {
    hide Wire;
    WireEmpty();
    if |rx| < 2 {
      NoFrame(rx, frames);
    }
  }

  lemma NoFrame(rx: seq<u8>, frames: seq<Frame>)
    requires rx == [] + Wire(frames) && |rx| < 2
    ensures frames == []
  {
    if |frames| > 0 {
      WireFirst(frames);
    }
  }

  lemma FirstFrame(rx: seq<u8>, frames: seq<Frame>)
    requires AllCounted(frames) && rx == [] + Wire(frames) && |rx| >= 2 && |frames| > 0
    ensures rx[0] == frames[0].mode && rx[1] == |frames[0].payload|
    ensures rx[1..][1..] == frames[0].payload + Wire(frames[1..])
  {
    hide Wire;
    WireFirst(frames);
    var f, w := frames[0], Wire(frames[1..]);
    assert |f.payload| < 0x100;
    assert rx == [f.mode, |f.payload|] + (f.payload + w);
  }
}
