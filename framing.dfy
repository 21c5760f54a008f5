/**
 * The frame codec of ReadWrite.cpp / ReadWrite.h. A frame is
 *
 *   [SOH = 1] [length = payload + 3] [payload ...] [check byte]
 *
 * where the check byte is the checksum of the frame with 0 in its last slot;
 * the finished frame then has checksum 0.
 */
module Framing {
  import opened Bytes
  import opened Checksum
  import opened Serial

  /** The start-of-header byte `SOH` (ReadWrite.h). */
  const SOH: byte := 1

  /** The longest payload whose frame length still fits the length byte. */
  const MaxPayload := 252

  // ---------------------------------------------------------------------
  // Frames as values
  // ---------------------------------------------------------------------

  /** The number of bytes before the first zero byte of `s` (all of `s` if none). */
  function PayloadLength(s: seq<byte>): (n: nat)
    ensures n <= |s|
    ensures forall j | 0 <= j < n :: s[j] != 0
    ensures n < |s| ==> s[n] == 0
  {
    if |s| == 0 || s[0] == 0 then 0 else 1 + PayloadLength(s[1..])
  }

  /** The frame processWrite builds around `payload`. */
  function Frame(payload: seq<byte>): (f: seq<byte>)
    requires |payload| <= MaxPayload
    ensures |f| == |payload| + 3 && f[0] == SOH && f[1] == |f|
    ensures f[2..|f| - 1] == payload
    ensures CrcOf(f) == 0
  {
    var body := [SOH, |payload| + 3] + payload;
    CheckByte(body, CrcOf(body + [0]));
    body + [CrcOf(body + [0])]
  }

  /** The payload slots of a frame. */
  function Payload(f: seq<byte>): seq<byte>
    requires |f| >= 3
  {
    f[2..|f| - 1]
  }

  /** A frame with a correct header, a length byte that matches and checksum 0. */
  predicate WellFormed(f: seq<byte>)
  {
    3 <= |f| <= MaxPayload + 3 && f[0] == SOH && f[1] == |f| && CrcOf(f) == 0
  }

  /** Decoding recovers the payload of every frame. */
  lemma PayloadOfFrame(payload: seq<byte>)
    requires |payload| <= MaxPayload
    ensures WellFormed(Frame(payload)) && Payload(Frame(payload)) == payload
  {
  }

  /** The frames processWrite can build are exactly the well-formed byte strings. */
  lemma WellFormedIsFrame(f: seq<byte>)
    requires 3 <= |f| <= MaxPayload + 3
    ensures WellFormed(f) <==> f == Frame(Payload(f))
  {
    var body := f[..|f| - 1];
    var g := Frame(Payload(f));
    assert f == body + [f[|f| - 1]];
    if WellFormed(f) {
      assert body == [SOH, |f|] + Payload(f);
      CheckByte(body, f[|f| - 1]);
      assert g == body + [CrcOf(body + [0])];
    }
  }

  /** A frame with any single byte changed no longer has checksum 0. */
  lemma CorruptionDetected(payload: seq<byte>, g: seq<byte>, i: int)
    requires |payload| <= MaxPayload
    requires |g| == |payload| + 3 && 0 <= i < |g|
    requires g[i] != Frame(payload)[i]
    requires forall j | 0 <= j < |g| && j != i :: g[j] == Frame(payload)[j]
    ensures CrcOf(g) != 0
  {
    SingleByteChange(Frame(payload), g, i);
  }

  /**
   * crcCheck over the first |f| slots of a buffer holding the frame `f`
   * followed by anything succeeds.
   */
  lemma FrameChecks(payload: seq<byte>, tail: seq<byte>, stale: byte)
    requires |payload| <= MaxPayload && |tail| >= 1
    ensures var f := Frame(payload); CrcAddResult(f + tail, |f|, stale) == 0
  {
    var f := Frame(payload);
    assert (f + tail)[..|f|] == f;
  }

  // ---------------------------------------------------------------------
  // Frames on the wire
  // ---------------------------------------------------------------------

  /** The read outcomes of bytes `f` arriving one by one. */
  function Arrivals(f: seq<byte>): (r: seq<ReadOutcome>)
    ensures |r| == |f|
  {
    seq(|f|, i requires 0 <= i < |f| => Byte(f[i]))
  }

  /** head + tail, read from index |head| on, is tail. */
  lemma NextAfter(head: seq<ReadOutcome>, tail: seq<ReadOutcome>, i: nat)
    ensures Next(head + tail, |head| + i) == Next(tail, i)
  {
  }

  /**
   * A frame arriving intact, after at most eight reads of noise, on a buffer
   * whose slot 0 does not already hold SOH, is delivered whole, and readPort
   * returns its length whenever its payload is not empty.
   */
  lemma ReceiveFrame(rb: seq<byte>, noise: seq<ReadOutcome>, payload: seq<byte>, rest: seq<ReadOutcome>)
    requires |rb| == BufferSize && rb[0] != SOH
    requires Noise(noise) && |noise| <= 8
    requires |payload| <= MaxPayload
    ensures var f := Frame(payload);
      var rc := Receive(rb, noise + Arrivals(f) + rest);
      rc.delivered == f && rc.calls == |noise| + |f| &&
      rc.result == (if |payload| > 0 then |f| else -5)
  {
    var f := Frame(payload);
    var outs := noise + Arrivals(f) + rest;
    var n := |noise|;
    assert outs == noise + (Arrivals(f) + rest);
    forall i | 0 <= i < |Arrivals(f) + rest|
      ensures Next(outs, n + i) == Next(Arrivals(f) + rest, i)
    {
      NextAfter(noise, Arrivals(f) + rest, i);
    }
    forall i | 0 <= i < n
      ensures Next(outs, i) != Byte(SOH)
    {
      assert outs[i] == noise[i];
    }
    assert Next(outs, n) == Byte(f[0]);
    SearchPastNoise(rb[0], outs, 0, n);
    var marked := rb[0 := 1];
    assert Next(outs, n + 1) == Byte(f[1]);
    var lth := |f|;
    var assembled := Filled(marked[1 := f[1]], outs, n + 2, lth);
    forall j | 2 <= j < lth
      ensures assembled[j] == f[j]
    {
      assert Next(outs, n + j) == Byte(f[j]);
    }
    assert assembled[..lth] == f;
  }

  /**
   * When the start-of-header byte arrives on the tenth read, readPort gives
   * up with 0 but leaves it in slot 0, so the next call skips the search and
   * delivers the frame from the reads that follow.
   */
  lemma ReceiveLateHeader(rb: seq<byte>, noise: seq<ReadOutcome>, payload: seq<byte>, rest: seq<ReadOutcome>)
    requires |rb| == BufferSize && rb[0] != SOH
    requires Noise(noise) && |noise| == 9
    requires |payload| <= MaxPayload
    ensures var f := Frame(payload);
      var outs := noise + Arrivals(f) + rest;
      var first := Receive(rb, outs);
      var second := Receive(first.buffer, outs[first.calls..]);
      first.result == 0 && first.calls == 10 && |first.buffer| == BufferSize &&
      first.buffer[0] == SOH &&
      second.delivered == f && second.calls == |f| - 1
  {
    var f := Frame(payload);
    var outs := noise + Arrivals(f) + rest;
    forall i | 0 <= i < 9
      ensures Next(outs, i) != Byte(SOH)
    {
      assert outs[i] == noise[i];
    }
    assert Next(outs, 9) == Byte(f[0]);
    SearchPastNoise(rb[0], outs, 0, 9);
    var first := Receive(rb, outs);
    var later := outs[10..];
    assert later == Arrivals(f)[1..] + rest;
    forall i | 0 <= i < |f| - 1
      ensures Next(later, i) == Byte(f[i + 1])
    {
    }
    var second := Receive(first.buffer, later);
    var marked := first.buffer;
    var assembled := Filled(marked[1 := f[1]], later, 1, |f|);
    forall j | 2 <= j < |f|
      ensures assembled[j] == f[j]
    {
      assert Next(later, j - 1) == Byte(f[j]);
    }
    assert assembled[..|f|] == f;
  }

  /**
   * A frame sent by processWrite and received intact by readPort passes
   * processRead's gate: its length byte equals readPort's result, the
   * checksum over those bytes is 0 whatever follows them, and the payload
   * is the one sent.
   */
  lemma FrameRoundTrip(rb: seq<byte>, noise: seq<ReadOutcome>, payload: seq<byte>, rest: seq<ReadOutcome>,
                       tail: seq<byte>, stale: byte)
    requires |rb| == BufferSize && rb[0] != SOH
    requires Noise(noise) && |noise| <= 8
    requires 0 < |payload| <= MaxPayload && |tail| >= 1
    ensures var rc := Receive(rb, noise + Arrivals(Frame(payload)) + rest);
      3 < rc.result == |rc.delivered| && rc.delivered[1] == rc.result &&
      CrcAddResult(rc.delivered + tail, rc.result, stale) == 0 &&
      Payload(rc.delivered) == payload
  {
    ReceiveFrame(rb, noise, payload, rest);
    FrameChecks(payload, tail, stale);
  }

  /**
   * processWrite's local buffer after its copy loop has moved the first `l`
   * bytes of `w` two slots up into the zero-initialised buffer.
   */
  function Staged(w: seq<byte>, l: nat): (b: seq<byte>)
    requires l <= |w| && l <= BufferSize - 2
    ensures |b| == BufferSize
  {
    [0, 0] + w[..l] + seq(BufferSize - 2 - l, _ => 0)
  }

  lemma StagedStep(w: seq<byte>, l: nat)
    requires l < |w| && l < BufferSize - 2
    ensures Staged(w, l)[l + 2 := w[l]] == Staged(w, l + 1)
  {
  }

  /** The slots crcAdd reads once SOH and the length are patched in. */
  lemma StagedHeader(w: seq<byte>, p: nat)
    requires p <= |w| && p <= MaxPayload
    ensures var b := Staged(w, p)[0 := SOH][1 := p + 3];
      b[..p + 3] == [SOH, p + 3] + w[..p] + [0] &&
      b[..p + 4] == [SOH, p + 3] + w[..p] + [0, 0]
  {
  }

  /**
   * Writing crcAdd's result over the zero in the check slot of the staged
   * prefix completes the frame.
   */
  lemma PatchedFrame(staged: seq<byte>, payload: seq<byte>, c: byte)
    requires |payload| <= MaxPayload && |staged| == BufferSize
    requires staged[..|payload| + 3] == [SOH, |payload| + 3] + payload + [0]
    requires c == CrcOf(staged[..|payload| + 3])
    ensures staged[|payload| + 2 := c][..|payload| + 3] == Frame(payload)
    ensures Frame(payload)[..|payload| + 2] == [SOH, |payload| + 3] + payload
  {
    var body := [SOH, |payload| + 3] + payload;
    assert staged[|payload| + 2 := c][..|payload| + 3] == body + [c];
  }

  /**
   * processWrite's copy loop: a fresh zero-filled 256-byte buffer receives
   * the bytes of `wrtBuff` before its first zero, from index 2 on; `l` ends
   * as their count.
   */
  method StageMessage(wrtBuff: array<byte>) returns (buffer: array<byte>, l: int)
    requires PayloadLength(wrtBuff[..]) < wrtBuff.Length && PayloadLength(wrtBuff[..]) <= MaxPayload
    ensures fresh(buffer) && buffer.Length == BufferSize
    ensures l == PayloadLength(wrtBuff[..]) && buffer[..] == Staged(wrtBuff[..], l)
  {
    ghost var w := wrtBuff[..];
    ghost var p := PayloadLength(w);
    l := 0;
    buffer := new byte[BufferSize](_ => 0);
    assert buffer[..] == Staged(w, 0);
    while wrtBuff[l] != 0
      invariant 0 <= l <= p
      invariant buffer[..] == Staged(w, l)
      modifies buffer
      decreases p - l
    {
      StagedStep(w, l);
      buffer[l + 2] := wrtBuff[l];
      l := l + 1;
    }
  }

  // ---------------------------------------------------------------------
  // The ReadWrite object
  // ---------------------------------------------------------------------

  /** The `ReadWrite` class: its receive buffer, the port and the checksum engine. */
  class ReadWrite {
    var rdBuff: array<byte>
    var port: ComPort
    var crc: Crc

    ghost predicate Valid()
      reads this, port, crc
    {
      rdBuff.Length == BufferSize && port.Valid() && crc.Valid() &&
      rdBuff != port.readBuffer && rdBuff != port.writeBuffer
    }

    constructor (cp: ComPort)
      requires cp.Valid()
      ensures Valid() && port == cp && fresh(rdBuff) && fresh(crc) && fresh(crc.crcBuff)
    {
      rdBuff := new byte[BufferSize];
      port := cp;
      crc := new Crc();
    }

    /**
     * The framing part of processWrite: copy the bytes of `wrtBuff` before
     * its first zero byte two slots up into a zero-initialised 256-byte
     * buffer, patch in SOH and the length, and compute the check byte with
     * crcAdd while the last frame slot still holds 0.
     */
    method BuildFrame(wrtBuff: array<byte>) returns (buffer: array<byte>, l: int)
      requires crc.Valid()
      requires PayloadLength(wrtBuff[..]) < wrtBuff.Length && PayloadLength(wrtBuff[..]) <= MaxPayload
      requires wrtBuff != crc.crcBuff
      modifies crc`reg, crc.crcBuff
      ensures crc.Valid() && fresh(buffer) && buffer.Length == BufferSize
      ensures wrtBuff[..] == old(wrtBuff[..])
      ensures var f := Frame(wrtBuff[..PayloadLength(wrtBuff[..])]);
        l == |f| && buffer[..l] == f &&
        crc.crcBuff[..] == f[..|f| - 1] + [0, 0] + old(crc.crcBuff[..])[|f| + 1..]
    {
      ghost var w := wrtBuff[..];
      buffer, l := StageMessage(wrtBuff);
      ghost var payload := w[..l];
      StagedHeader(w, l);
      l := l + 3;
      buffer[0] := SOH;
      buffer[1] := l;
      ghost var staged := buffer[..];
      var crcByte := crc.CrcAdd(buffer, l);
      buffer[l - 1] := crcByte;
      assert buffer[..] == staged[l - 1 := crcByte];
      PatchedFrame(staged, payload, crcByte);
    }

    /**
     * processWrite: frame the bytes of `wrtBuff` before its first zero byte
     * and hand the frame to the port. The result is the frame length when the
     * port reports that length written, and -4 otherwise. `writeSucceeds` is
     * the outcome of WriteFile.
     */
    method ProcessWrite(wrtBuff: array<byte>, writeSucceeds: bool) returns (r: int)
      requires Valid()
      requires PayloadLength(wrtBuff[..]) < wrtBuff.Length && PayloadLength(wrtBuff[..]) <= MaxPayload
      requires wrtBuff != port.writeBuffer && wrtBuff != crc.crcBuff
      modifies crc`reg, crc.crcBuff, port.writeBuffer, port`readEnabled
      ensures Valid() && port.readEnabled
      ensures wrtBuff[..] == old(wrtBuff[..])
      ensures var f := Frame(wrtBuff[..PayloadLength(wrtBuff[..])]);
        r == (if writeSucceeds then |f| else -4) &&
        port.writeBuffer[..] == f + old(port.writeBuffer[..])[|f|..] &&
        crc.crcBuff[..] == f[..|f| - 1] + [0, 0] + old(crc.crcBuff[..])[|f| + 1..]
    {
      var buffer, l := BuildFrame(wrtBuff);
      var written := port.WritePort(buffer, writeSucceeds);
      if written == l {
        r := l;
      } else {
        r := -4;
      }
    }

    /** processRead's copy loop: the first `n` bytes of `rdIn` go to the receive buffer. */
    method Store(rdIn: array<byte>, n: int)
      requires Valid()
      requires rdIn.Length == BufferSize && rdIn != rdBuff && 0 <= n < BufferSize
      modifies rdBuff
      ensures Valid()
      ensures rdBuff[..] == rdIn[..n] + old(rdBuff[..])[n..]
    {
      var i := 0;
      while i < n
        invariant 0 <= i <= n
        invariant rdBuff[..] == rdIn[..i] + old(rdBuff[..])[i..]
        modifies rdBuff
      {
        SpliceStep(rdIn[..], old(rdBuff[..]), i);
        rdBuff[i] := rdIn[i];
        i := i + 1;
      }
    }

    /**
     * processRead: reject with -2, touching nothing, a buffer whose length
     * byte disagrees with `lth`; otherwise copy its first `lth` bytes into
     * the receive buffer, run crcCheck over them, and return `lth` whatever
     * the check said. `checkPassed` is the ignored outcome of the check.
     */
    method ProcessRead(rdIn: array<byte>, lth: int) returns (r: int, ghost checkPassed: bool)
      requires Valid()
      requires rdIn.Length == BufferSize && rdIn != rdBuff
      modifies rdBuff, crc`reg, crc.crcBuff
      ensures Valid()
      ensures lth != rdIn[1] ==>
        r == -2 && rdBuff[..] == old(rdBuff[..]) && crc.crcBuff[..] == old(crc.crcBuff[..])
      ensures lth == rdIn[1] ==>
        r == lth &&
        rdBuff[..] == rdIn[..lth] + old(rdBuff[..])[lth..] &&
        (checkPassed <==> CrcAddResult(rdBuff[..], lth, old(crc.crcBuff[0])) == 0) &&
        crc.crcBuff[..] == Copied(rdBuff[..], old(crc.crcBuff[..]), lth)
    {
      if lth != rdIn[1] {
        return -2, false;
      }
      Store(rdIn, lth);
      checkPassed := crc.CrcCheck(rdBuff, lth);
      r := lth;
    }
  }
}
