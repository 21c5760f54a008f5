/**
 * The serial port object of ComPort.cpp / ComPort.h: a line configuration
 * record (the Win32 DCB fields the program touches), a 256-byte write buffer
 * and a 256-byte read buffer, and the frame assembler `readPort`.
 *
 * The operating system is not modelled. Each ReadFile call made by readPort
 * consumes the next element of a caller-supplied sequence of outcomes; once
 * the sequence is exhausted every further call succeeds without delivering a
 * byte. The outcome of WriteFile is a boolean parameter.
 */
module Serial {
  import opened Bytes

  // ---------------------------------------------------------------------
  // Line configuration
  // ---------------------------------------------------------------------

  /** `NOPARITY` and `ONESTOPBIT` of the Win32 headers. */
  const NoParity := 0
  const OneStopBit := 0

  /** The start-of-header byte that readPort looks for in slot 0. */
  const Header: byte := 1

  /** The five baud rates setBaud accepts. */
  predicate IsBaudRate(baud: int)
  {
    baud == 1200 || baud == 2400 || baud == 4800 || baud == 9600 || baud == 19200
  }

  /** The DCB fields that the setters and getters touch. */
  datatype Dcb = Dcb(baudRate: int, byteSize: int, parity: int, fParity: bool, stopBits: int)

  /** Every configuration reachable from the constructor through the setters. */
  predicate ConfigValid(d: Dcb)
  {
    IsBaudRate(d.baudRate) && (d.byteSize == 7 || d.byteSize == 8) &&
    0 <= d.stopBits <= 2 && 0 <= d.parity <= 4
  }

  // ---------------------------------------------------------------------
  // What readPort does, as a function of the read outcomes
  // ---------------------------------------------------------------------

  /**
   * One ReadFile call of one byte: it fails, succeeds without delivering a
   * byte (the timeouts make ReadFile return at once), or delivers a byte.
   */
  datatype ReadOutcome = Failed | Empty | Byte(value: byte)

  /** The outcome of the read with index `k`; past the end of the script, Empty. */
  function Next(outcomes: seq<ReadOutcome>, k: nat): ReadOutcome
  {
    if k < |outcomes| then outcomes[k] else Empty
  }

  /** A buffer slot after a read into it: only a delivered byte overwrites it. */
  function Absorb(slot: byte, o: ReadOutcome): byte
  {
    if o.Byte? then o.value else slot
  }

  /**
   * The declared length `lth` after the length read: the delivered byte, the
   * byte already in slot 1 when nothing was delivered, and 0 when ReadFile failed.
   */
  function DeclaredLength(slot: byte, o: ReadOutcome): byte
  {
    match o
    case Byte(b) => b
    case Empty => slot
    case Failed => 0
  }

  /** How the start-of-header search ended. */
  datatype SearchEnd = SearchEnd(found: bool, marker: byte, calls: nat)

  /**
   * The search loop of readPort from attempt `attempt` on, with `marker` in
   * slot 0: while the slot is not 1, count an attempt, read into the slot, and
   * give up once the count exceeds 9. The read with index `attempt` is next.
   */
  function Search(marker: byte, outcomes: seq<ReadOutcome>, attempt: nat): SearchEnd
    requires attempt <= 9
    decreases 9 - attempt
  {
    if marker == 1 then SearchEnd(true, marker, attempt)
    else
      var m := Absorb(marker, Next(outcomes, attempt));
      if attempt + 1 > 9 then SearchEnd(false, m, attempt + 1)
      else Search(m, outcomes, attempt + 1)
  }

  /**
   * The read buffer after the fill loop has run for indices 2..to-1, where
   * index j consumes the read with index k + j - 2.
   */
  function Filled(buf: seq<byte>, outcomes: seq<ReadOutcome>, k: nat, to: int): (r: seq<byte>)
    ensures |r| == |buf|
  {
    seq(|buf|, j requires 0 <= j < |buf| =>
      if 2 <= j < to then Absorb(buf[j], Next(outcomes, k + j - 2)) else buf[j])
  }

  /** `buf` with its first `n` slots zeroed. */
  function Zeroed(buf: seq<byte>, n: int): (r: seq<byte>)
    ensures |r| == |buf|
  {
    seq(|buf|, j requires 0 <= j < |buf| => if j < n then 0 else buf[j])
  }

  /**
   * What one readPort call yields: the value it returns, the number of
   * ReadFile calls it makes, the bytes it copies to the front of the caller's
   * buffer, and the new contents of the read buffer.
   */
  datatype Reception = Reception(result: int, calls: nat, delivered: seq<byte>, buffer: seq<byte>)

  /**
   * The part of readPort after the header was found: `marked` is the read
   * buffer with 1 in slot 0 and `k` the number of reads made so far.
   */
  function Complete(marked: seq<byte>, outcomes: seq<ReadOutcome>, k: nat): Reception
    requires |marked| == BufferSize
  {
    var o := Next(outcomes, k);
    var lth := DeclaredLength(marked[1], o);
    var assembled := Filled(marked[1 := Absorb(marked[1], o)], outcomes, k + 1, lth);
    Reception(if lth > 3 then lth else -5,
              k + 1 + (if lth > 2 then lth - 2 else 0),
              assembled[..lth],
              Zeroed(assembled, lth))
  }

  /** readPort, on a read buffer holding `rb`, over the read outcomes `outcomes`. */
  function Receive(rb: seq<byte>, outcomes: seq<ReadOutcome>): Reception
    requires |rb| == BufferSize
  {
    var s := Search(rb[0], outcomes, 0);
    if !s.found then Reception(0, s.calls, [], rb[0 := s.marker])
    else Complete(rb[0 := s.marker], outcomes, s.calls)
  }

  lemma FilledStep(buf: seq<byte>, outcomes: seq<ReadOutcome>, k: nat, to: int)
    requires 2 <= to < |buf|
    ensures Filled(buf, outcomes, k, to + 1) ==
      Filled(buf, outcomes, k, to)[to := Absorb(buf[to], Next(outcomes, k + to - 2))]
  {
  }

  lemma FilledNone(buf: seq<byte>, outcomes: seq<ReadOutcome>, k: nat, to: int)
    requires to <= 2
    ensures Filled(buf, outcomes, k, to) == buf
  {
  }

  lemma ZeroedStep(buf: seq<byte>, n: nat)
    requires n < |buf|
    ensures Zeroed(buf, n + 1) == Zeroed(buf, n)[n := 0]
  {
  }

  // ---------------------------------------------------------------------
  // Properties of the search and of one readPort call
  // ---------------------------------------------------------------------

  /** Noise: read outcomes none of which delivers the start-of-header byte. */
  predicate Noise(outcomes: seq<ReadOutcome>)
  {
    forall i | 0 <= i < |outcomes| :: outcomes[i] != Byte(Header)
  }

  /** How the header search runs: at most ten reads, and a give-up takes exactly ten. */
  lemma {:induction false} SearchBounds(marker: byte, outcomes: seq<ReadOutcome>, attempt: nat)
    requires attempt <= 9
    ensures var s := Search(marker, outcomes, attempt);
      attempt <= s.calls <= 10 &&
      (s.found ==> s.marker == 1) &&
      (!s.found ==> s.calls == 10) &&
      (marker == 1 ==> s.found && s.calls == attempt)
    decreases 9 - attempt
  {
    if marker != 1 && attempt + 1 <= 9 {
      SearchBounds(Absorb(marker, Next(outcomes, attempt)), outcomes, attempt + 1);
    }
  }

  /**
   * After n reads of noise from attempt a, the start-of-header byte is found
   * when it arrives by the ninth attempt; on the tenth the search gives up
   * although slot 0 then holds it.
   */
  lemma {:induction false} SearchPastNoise(marker: byte, outcomes: seq<ReadOutcome>, a: nat, n: nat)
    requires marker != 1 && a + n + 1 <= 10
    requires forall i | a <= i < a + n :: Next(outcomes, i) != Byte(Header)
    requires Next(outcomes, a + n) == Byte(Header)
    ensures Search(marker, outcomes, a) == SearchEnd(a + n + 1 <= 9, 1, a + n + 1)
    decreases n
  {
    if n > 0 {
      var m := Absorb(marker, Next(outcomes, a));
      assert Next(outcomes, a) != Byte(Header);
      SearchPastNoise(m, outcomes, a + 1, n - 1);
    }
  }

  /**
   * Every readPort result is 0 (no header within ten reads), -5 (declared
   * length of 3 or less) or a frame length above 3; in the last case the
   * delivered bytes start with SOH and their length byte equals the result.
   */
  lemma ReceiveResult(rb: seq<byte>, outcomes: seq<ReadOutcome>)
    requires |rb| == BufferSize
    ensures var rc := Receive(rb, outcomes);
      (rc.result == 0 && rc.delivered == [] && rc.calls == 10) ||
      (rc.result == -5 && |rc.delivered| <= 3) ||
      (3 < rc.result < BufferSize && rc.result == |rc.delivered| &&
       rc.delivered[0] == Header && rc.delivered[1] == rc.result)
    ensures Receive(rb, outcomes).calls <= 10 + 1 + (BufferSize - 3)
  {
    SearchBounds(rb[0], outcomes, 0);
  }

  /** With no start-of-header byte among its first ten reads, readPort gives up with 0. */
  lemma ReceiveGivesUp(rb: seq<byte>, noise: seq<ReadOutcome>, rest: seq<ReadOutcome>)
    requires |rb| == BufferSize && rb[0] != Header
    requires Noise(noise) && |noise| >= 10
    ensures var rc := Receive(rb, noise + rest);
      rc.result == 0 && rc.calls == 10 && rc.delivered == [] && rc.buffer[0] != Header
  {
    var outs := noise + rest;
    SearchNoMarker(rb[0], outs, 0);
  }

  lemma {:induction false} SearchNoMarker(marker: byte, outcomes: seq<ReadOutcome>, a: nat)
    requires marker != 1 && a <= 9
    requires forall i | a <= i < 10 :: Next(outcomes, i) != Byte(Header)
    ensures var s := Search(marker, outcomes, a); !s.found && s.calls == 10 && s.marker != 1
    decreases 9 - a
  {
    var m := Absorb(marker, Next(outcomes, a));
    assert Next(outcomes, a) != Byte(Header);
    if a + 1 <= 9 {
      SearchNoMarker(m, outcomes, a + 1);
    }
  }

  // ---------------------------------------------------------------------
  // The port object
  // ---------------------------------------------------------------------

  /** The `ComPort` class, without the Win32 handles. */
  class ComPort {
    var dcb: Dcb
    var writeBuffer: array<byte>
    var readBuffer: array<byte>
    /** The state of the manual-reset event `_eventRead`: readPort may proceed. */
    var readEnabled: bool

    ghost predicate Valid()
      reads this
    {
      ConfigValid(dcb) &&
      writeBuffer.Length == BufferSize && readBuffer.Length == BufferSize &&
      writeBuffer != readBuffer
    }

    /** The configuration part of the constructor; fParity is left as it was. */
    constructor ()
      ensures Valid() && fresh(writeBuffer) && fresh(readBuffer)
      ensures dcb.baudRate == 9600 && dcb.byteSize == 8
      ensures dcb.parity == NoParity && dcb.stopBits == OneStopBit
      ensures readEnabled
    {
      var flag: bool :| true;
      dcb := Dcb(9600, 8, NoParity, flag, OneStopBit);
      writeBuffer := new byte[BufferSize];
      readBuffer := new byte[BufferSize];
      readEnabled := true;
    }

    /** setBaud: store one of the five standard rates; refuse anything else. */
    method SetBaud(baud: int) returns (ok: bool)
      requires Valid()
      modifies this`dcb
      ensures Valid()
      ensures ok <==> IsBaudRate(baud)
      ensures dcb == if ok then old(dcb).(baudRate := baud) else old(dcb)
    {
      if IsBaudRate(baud) {
        dcb := dcb.(baudRate := baud);
      } else {
        return false;
      }
      ok := dcb.baudRate == baud;
    }

    function GetBaud(): (baud: int)
      reads this
      requires Valid()
      ensures IsBaudRate(baud) && baud == dcb.baudRate
    {
      dcb.baudRate
    }

    /** setDataBits: accept 7 or 8 data bits only. */
    method SetDataBits(dataBits: int) returns (ok: bool)
      requires Valid()
      modifies this`dcb
      ensures Valid()
      ensures ok <==> dataBits == 7 || dataBits == 8
      ensures dcb == if ok then old(dcb).(byteSize := dataBits) else old(dcb)
    {
      ok := false;
      if dataBits == 7 || dataBits == 8 {
        dcb := dcb.(byteSize := dataBits);
        if dcb.byteSize == dataBits {
          ok := true;
        }
      }
    }

    function GetDataBits(): (dataBits: int)
      reads this
      requires Valid()
      ensures (dataBits == 7 || dataBits == 8) && dataBits == dcb.byteSize
    {
      dcb.byteSize
    }

    /** setStopBits: accept the codes 0, 1 and 2 only. */
    method SetStopBits(stopBits: int) returns (ok: bool)
      requires Valid()
      modifies this`dcb
      ensures Valid()
      ensures ok <==> 0 <= stopBits <= 2
      ensures dcb == if ok then old(dcb).(stopBits := stopBits) else old(dcb)
    {
      ok := false;
      if 0 <= stopBits <= 2 {
        dcb := dcb.(stopBits := stopBits);
        if dcb.stopBits == stopBits {
          ok := true;
        }
      }
    }

    function GetStopBits(): (stopBits: int)
      reads this
      requires Valid()
      ensures 0 <= stopBits <= 2 && stopBits == dcb.stopBits
    {
      dcb.stopBits
    }

    /**
     * setParity: the codes 1..4 select a parity scheme and turn parity
     * checking on, 0 selects no parity and turns it off, and any other code
     * changes nothing; the result says whether the stored code is now `par`.
     */
    method SetParity(par: int) returns (ok: bool)
      requires Valid()
      modifies this`dcb
      ensures Valid()
      ensures ok <==> 0 <= par <= 4
      ensures 0 < par <= 4 ==> dcb == old(dcb).(parity := par, fParity := true)
      ensures par == 0 ==> dcb == old(dcb).(parity := 0, fParity := false)
      ensures !ok ==> dcb == old(dcb)
    {
      if 0 < par <= 4 {
        dcb := dcb.(fParity := true, parity := par);
      } else if par == 0 {
        dcb := dcb.(fParity := false, parity := par);
      }
      ok := dcb.parity == par;
    }

    function GetParity(): (par: int)
      reads this
      requires Valid()
      ensures 0 <= par <= 4 && par == dcb.parity
    {
      dcb.parity
    }

    /**
     * The start-of-header search of readPort: while slot 0 of the read
     * buffer is not 1, count an attempt and read into slot 0, giving up once
     * the count exceeds 9. `attempts` is the number of ReadFile calls made.
     */
    method FindHeader(outcomes: seq<ReadOutcome>) returns (found: bool, attempts: nat)
      requires Valid()
      modifies readBuffer
      ensures Valid()
      ensures var s := Search(old(readBuffer[0]), outcomes, 0);
        found == s.found && attempts == s.calls && readBuffer[..] == old(readBuffer[..])[0 := s.marker]
    {
      ghost var rb := readBuffer[..];
      attempts := 0;
      while readBuffer[0] != 1
        invariant 0 <= attempts <= 9
        invariant readBuffer[..] == rb[0 := readBuffer[0]]
        invariant Search(readBuffer[0], outcomes, attempts) == Search(rb[0], outcomes, 0)
        decreases 9 - attempts
      {
        var o := Next(outcomes, attempts);
        attempts := attempts + 1;
        if o.Byte? {
          readBuffer[0] := o.value;
        }
        if attempts > 9 {
          return false, attempts;
        }
      }
      found := true;
    }

    /**
     * The fill loop of readPort: slots 2..lth-1 of the read buffer each take
     * one read, in ascending order, starting with the read with index `first`;
     * a failed or empty read leaves its slot as it was.
     */
    method FillFrame(outcomes: seq<ReadOutcome>, first: nat, lth: int) returns (used: nat)
      requires Valid() && lth < BufferSize
      modifies readBuffer
      ensures Valid()
      ensures used == first + (if lth > 2 then lth - 2 else 0)
      ensures readBuffer[..] == Filled(old(readBuffer[..]), outcomes, first, lth)
    {
      ghost var base := readBuffer[..];
      FilledNone(base, outcomes, first, 2);
      used := first;
      var ndx := 2;
      while ndx < lth
        invariant 2 <= ndx <= if lth > 2 then lth else 2
        invariant used == first + (ndx - 2)
        invariant readBuffer[..] == Filled(base, outcomes, first, ndx)
      {
        var o := Next(outcomes, used);
        FilledStep(base, outcomes, first, ndx);
        used := used + 1;
        if o.Byte? {
          readBuffer[ndx] := o.value;
        }
        ndx := ndx + 1;
      }
      if lth <= 2 {
        FilledNone(base, outcomes, first, lth);
      }
    }

    /**
     * The copy-out of readPort: move the first `lth` slots of the read buffer
     * to `passBuff` and zero them.
     */
    method Deliver(passBuff: array<byte>, lth: int)
      requires Valid() && lth < BufferSize
      requires passBuff.Length == BufferSize && passBuff != readBuffer
      modifies readBuffer, passBuff
      ensures Valid()
      ensures readBuffer[..] == Zeroed(old(readBuffer[..]), lth)
      ensures var n := if lth < 0 then 0 else lth;
        passBuff[..] == old(readBuffer[..])[..n] + old(passBuff[..])[n..]
    {
      ghost var assembled := readBuffer[..];
      assert Zeroed(assembled, 0) == assembled;
      var ndx := 0;
      while ndx < lth
        invariant 0 <= ndx <= if lth > 0 then lth else 0
        invariant readBuffer[..] == Zeroed(assembled, ndx)
        invariant passBuff[..] == assembled[..ndx] + old(passBuff[..])[ndx..]
      {
        ZeroedStep(assembled, ndx);
        SpliceStep(assembled, old(passBuff[..]), ndx);
        passBuff[ndx] := readBuffer[ndx];
        readBuffer[ndx] := 0;
        ndx := ndx + 1;
      }
      if lth < 0 {
        assert Zeroed(assembled, lth) == Zeroed(assembled, 0);
      }
    }

    /**
     * The rest of readPort once slot 0 holds the header byte: read the
     * declared length into slot 1, fill slots 2..lth-1 with the following
     * reads, then move the first lth slots to `passBuff` and zero them. `k` is
     * the number of reads made before; `used` is the number made after.
     */
    method ReadFrame(passBuff: array<byte>, outcomes: seq<ReadOutcome>, k: nat) returns (r: int, used: nat)
      requires Valid()
      requires passBuff.Length == BufferSize && passBuff != readBuffer
      modifies readBuffer, passBuff
      ensures Valid()
      ensures var c := Complete(old(readBuffer[..]), outcomes, k);
        r == c.result && used == c.calls && readBuffer[..] == c.buffer &&
        |c.delivered| <= BufferSize && passBuff[..] == c.delivered + old(passBuff[..])[|c.delivered|..]
    {
      ghost var marked := readBuffer[..];
      var lth := 0;
      var o := Next(outcomes, k);
      used := k + 1;
      if o.Byte? {
        readBuffer[1] := o.value;
        lth := readBuffer[1];
      } else if o.Empty? {
        lth := readBuffer[1];
      }
      assert readBuffer[..] == marked[1 := Absorb(marked[1], o)];
      assert lth == DeclaredLength(marked[1], o);
      used := FillFrame(outcomes, used, lth);
      Deliver(passBuff, lth);
      if lth > 3 {
        r := passBuff[1];
      } else {
        r := -5;
      }
    }

    /**
     * readPort: find the start-of-header byte 1 in slot 0 (at most ten reads),
     * then assemble and deliver the frame. The reads come from `outcomes`;
     * `used` is the number of ReadFile calls made.
     */
    method ReadPort(passBuff: array<byte>, outcomes: seq<ReadOutcome>) returns (r: int, used: nat)
      requires Valid() && readEnabled
      requires passBuff.Length == BufferSize
      requires passBuff != readBuffer && passBuff != writeBuffer
      modifies readBuffer, passBuff
      ensures Valid()
      ensures var c := Receive(old(readBuffer[..]), outcomes);
        r == c.result && used == c.calls && readBuffer[..] == c.buffer &&
        |c.delivered| <= BufferSize && passBuff[..] == c.delivered + old(passBuff[..])[|c.delivered|..]
    {
      var found, attempts := FindHeader(outcomes);
      if !found {
        return 0, attempts;
      }
      r, used := ReadFrame(passBuff, outcomes, attempts);
    }

    /**
     * writePort: copy the first passBuff[1] bytes into the write buffer and
     * hand them to WriteFile; report the length on success and -1 on failure.
     * Reading is switched off while this runs and is back on at either exit.
     */
    method WritePort(passBuff: array<byte>, writeSucceeds: bool) returns (r: int)
      requires Valid()
      requires 2 <= passBuff.Length && passBuff[1] <= passBuff.Length
      requires passBuff != writeBuffer
      modifies writeBuffer, this`readEnabled
      ensures Valid() && readEnabled
      ensures r == if writeSucceeds then old(passBuff[1]) else -1
      ensures writeBuffer[..] == passBuff[..passBuff[1]] + old(writeBuffer[passBuff[1]..])
    {
      readEnabled := false;
      var length := passBuff[1];
      var i := 0;
      while i < length
        invariant 0 <= i <= length
        invariant writeBuffer[..] == passBuff[..i] + old(writeBuffer[..])[i..]
      {
        SpliceStep(passBuff[..], old(writeBuffer[..]), i);
        writeBuffer[i] := passBuff[i];
        i := i + 1;
      }
      if writeSucceeds {
        readEnabled := true;
        return length;
      }
      readEnabled := true;
      r := -1;
    }
  }
}
