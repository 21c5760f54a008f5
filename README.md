# Serial framing protocol of SBoninLab04_V2, modelled in Dafny

The program sends and receives frames over a serial line. A frame is

    [SOH = 1] [length = payload + 3] [payload ...] [check byte]

Three classes make up the protocol.

* `CRC` (`checksum.dfy`, module `Checksum`) holds a 257-byte scratch array `crcBuff` and a 16-bit register `reg`.
  * `crcAdd` copies the caller's bytes 0..lt into the scratch array and seeds the register with byte 0.
  * It then shifts bytes 1..lt-1 into the register bit by bit, most significant bit first. Whenever the register exceeds 0xFF it is reduced by XOR with the mask 0x125.
  * `crcCheck` means "`crcAdd` returned 0".
* `ReadWrite` (`framing.dfy`, module `Framing`) holds a 256-byte receive buffer, the port and a `CRC`.
  * `processWrite` stages a zero-terminated message two slots up in a zero-filled 256-byte buffer. It then writes SOH and the length 3 + payload, and computes the check byte while the last slot still holds 0. As a result, the finished frame's checksum is 0.
  * `processRead` rejects a buffer whose length byte disagrees with the length it is given. Otherwise it copies the frame in and runs `crcCheck`, and it returns the length whatever the check says.
* `ComPort` (`serial.dfy`, module `Serial`) holds the line configuration (the DCB fields), a 256-byte write buffer, a 256-byte read buffer and the state of the read gate.
  * The setters and getters validate and store the configuration.
  * `readPort` makes at most ten reads searching for SOH in slot 0, then reads the declared length into slot 1 and fills slots 2..lth-1. It then moves the first lth slots to the caller's buffer and zeroes them.
  * `writePort` copies `passBuff[1]` bytes into the write buffer and hands them to WriteFile.

`bytes.dfy` (module `Bytes`) defines the byte type, the 256-byte buffer size and a splice lemma that the copy loops share.

Each class is a Dafny `class` with the source's fields as `array<byte>` and scalar fields. Each operation is a method whose postcondition gives the new state and result as functions of the old state. Those functions carry the properties:

* The register steps: `Step`, `Shift`, `ByteStep`, `Register`.
* The checksum: `CrcOf`, `CrcAddResult`, and `Copied` for the scratch array.
* The frame: `Frame`, `PayloadLength`.
* A call of `readPort`: `Search`, `Filled`, `Zeroed`, `Complete`, `Receive`.

The operating system is replaced by parameters:

* Each ReadFile call of `readPort` consumes the next element of a sequence of `ReadOutcome`s: `Failed`, `Empty` (success, no byte) or `Byte(b)`. Once the sequence runs out, every further read is `Empty`.
* The outcome of WriteFile is a boolean parameter.
* The manual-reset event that gates reading is the boolean field `readEnabled`.

The checksum is linear over GF(2). Processing byte `b` from a register `r` gives `ByteStep(r, 0) XOR b` (`ByteStepLinear`). So the check byte that makes the frame's checksum 0 exists, is unique, and is the checksum of the frame with 0 in its place (`CheckByte`). Any single changed byte is detected (`SingleByteChange`).

Two consequences of the code:

* A two-byte payload such as "HI" gives a 5-byte frame whose length byte is 5.
* readPort's positive result is always the delivered length byte (`ReceiveResult`), so processRead's -2 gate never fires on a buffer that readPort filled.

## Model

| member | source | states |
|---|---|---|
| `Checksum.Crc.constructor` | SBoninLab04_V2/CRC.h:6 | the scratch array has the 257 slots the source declares |
| `Checksum.Crc.CrcAdd` | SBoninLab04_V2/CRC.cpp:9-38 | the result is `CrcAddResult`: for lt >= 0, the checksum of the first max(lt, 1) caller bytes; for a negative lt, the stale first scratch byte. With lt < 0 nothing is copied; otherwise exactly caller slots 0..lt are copied into the scratch array and the rest of it is unchanged. The caller's array is outside the modifies frame, so it is unchanged. The register ends in 0..255 |
| `Checksum.Crc.CrcCheck` | SBoninLab04_V2/CRC.cpp:3-7 | returns true exactly when crcAdd's result is 0, with the same effect on the scratch array |
| `Checksum.ShiftByte` | SBoninLab04_V2/CRC.cpp:23-35 | the inner bit loop over one byte equals eight register steps, most significant bit first, and keeps the register within 0..255 |
| `Checksum.StepArithmetic` | SBoninLab04_V2/CRC.cpp:25-34 | one step is `reg := 2 * reg + bit`, followed by XOR with 0x125 when the sum exceeds 0xFF |
| `Checksum.StepBounded` | SBoninLab04_V2/CRC.cpp:25-34 | from a register in 0..255 the shifted value stays at most 0x1FF and the reduced register is back in 0..255, so the 16-bit `short` never overflows |
| `Checksum.ShiftBounded` | SBoninLab04_V2/CRC.cpp:23-35 | after every bit step of a byte the register stays in 0..255 |
| `Checksum.ShiftLinear` | SBoninLab04_V2/CRC.cpp:23-35 | after bt bit steps of byte x, the register is what the same steps give for byte 0, XOR the top bt bits of x |
| `Checksum.ByteStepLinear` | SBoninLab04_V2/CRC.cpp:23-35 | processing byte b equals processing byte 0, then XOR b |
| `Checksum.ByteStepInjective` | SBoninLab04_V2/CRC.cpp:23-35 | processing the same byte from two different registers gives two different registers |
| `Checksum.ByteStepSeparates` | SBoninLab04_V2/CRC.cpp:23-35 | processing two different bytes from the same register gives two different registers |
| `Checksum.RegisterAppend` | SBoninLab04_V2/CRC.cpp:21-36 | the byte loop over a + b is the loop over a, then the loop over b from the resulting register |
| `Checksum.RegisterSeparates` | SBoninLab04_V2/CRC.cpp:19-36 | different seeds give different registers after any bytes |
| `Checksum.SingleByteChange` | SBoninLab04_V2/CRC.cpp:19-37 | two frames of the same length that differ in exactly one byte have different checksums |
| `Checksum.CheckByte` | SBoninLab04_V2/CRC.cpp:19-37 | appending c to p gives checksum 0 if and only if c is the checksum of p followed by 0 |
| `Checksum.CrcAddShort` | SBoninLab04_V2/CRC.cpp:19-21 | for lt of 0 or 1, crcAdd returns the caller's first byte |
| `Checksum.CrcAddPrefix` | SBoninLab04_V2/CRC.cpp:11-21 | for lt >= 1 the result depends only on the first lt bytes; byte lt is copied but never shifted in |
| `Serial.ComPort.constructor` | SBoninLab04_V2/ComPort.cpp:18-21 | the configuration starts at 9600 baud, 8 data bits, no parity and one stop bit (code 0); the two buffers have 256 slots; reading is enabled |
| `Serial.ComPort.SetBaud` | SBoninLab04_V2/ComPort.cpp:71-92 | succeeds exactly for 1200, 2400, 4800, 9600 and 19200, and then stores the rate; otherwise nothing changes; the configuration stays valid |
| `Serial.ComPort.GetBaud` | SBoninLab04_V2/ComPort.cpp:94-97 | returns the stored rate, which is one of the five |
| `Serial.ComPort.SetDataBits` | SBoninLab04_V2/ComPort.cpp:99-107 | succeeds exactly for 7 and 8, and then stores the value; otherwise nothing changes |
| `Serial.ComPort.GetDataBits` | SBoninLab04_V2/ComPort.cpp:109-112 | returns the stored data bits, 7 or 8 |
| `Serial.ComPort.SetStopBits` | SBoninLab04_V2/ComPort.cpp:114-122 | succeeds exactly for 0..2, and then stores the code; otherwise nothing changes |
| `Serial.ComPort.GetStopBits` | SBoninLab04_V2/ComPort.cpp:124-127 | returns the stored stop-bit code, in 0..2 |
| `Serial.ComPort.SetParity` | SBoninLab04_V2/ComPort.cpp:131-147 | 1..4 stores the code and turns the parity flag on; 0 stores 0 and turns it off; any other code, 5 among them, changes nothing and fails |
| `Serial.ComPort.GetParity` | SBoninLab04_V2/ComPort.cpp:149-152 | returns the stored parity code, in 0..4 |
| `Serial.ComPort.FindHeader` | SBoninLab04_V2/ComPort.cpp:163-177 | the search loop gives `Search`'s outcome: found or not, the number of reads made, and the new slot 0; every other slot is unchanged |
| `Serial.ComPort.FillFrame` | SBoninLab04_V2/ComPort.cpp:187-198 | slots 2..lth-1 each take one read in ascending order. A failed or empty read leaves its slot unchanged and does not stop the loop. The loop makes exactly max(0, lth-2) reads |
| `Serial.ComPort.Deliver` | SBoninLab04_V2/ComPort.cpp:200-204 | the caller's first lth slots receive the read buffer's first lth slots, which are then zero; higher slots of both arrays are unchanged |
| `Serial.ComPort.ReadFrame` | SBoninLab04_V2/ComPort.cpp:179-213 | after the header, the length read gives lth: b on `Byte(b)`, the old slot 1 on `Empty`, 0 on `Failed`. The fill and copy-out follow. The result is lth when lth > 3 and -5 otherwise |
| `Serial.ComPort.ReadPort` | SBoninLab04_V2/ComPort.cpp:154-214 | the result, the number of reads, the delivered prefix of the caller's buffer and the new read buffer are those of `Receive`; the caller's slots beyond the delivered bytes are unchanged |
| `Serial.ComPort.WritePort` | SBoninLab04_V2/ComPort.cpp:216-240 | copies the first passBuff[1] bytes into the write buffer and leaves the rest unchanged; returns passBuff[1] when the write succeeds and -1 otherwise; reading is enabled again on both exits |
| `Serial.SearchBounds` | SBoninLab04_V2/ComPort.cpp:163-177 | the search reads at most ten times; giving up takes exactly ten reads; with 1 already in slot 0 it makes no read |
| `Serial.SearchPastNoise` | SBoninLab04_V2/ComPort.cpp:163-177 | SOH arriving after n noise reads is found if it arrives by the ninth read. On the tenth read the search returns 0, yet slot 0 holds SOH |
| `Serial.SearchNoMarker` | SBoninLab04_V2/ComPort.cpp:163-177 | with no SOH among the reads up to the tenth, the search gives up after ten reads without SOH in slot 0 |
| `Serial.ReceiveResult` | SBoninLab04_V2/ComPort.cpp:180-213 | readPort returns 0 (nothing delivered, ten reads), -5 (at most 3 bytes delivered), or a length in 4..255 equal to the number of delivered bytes; in the last case the delivered bytes start with SOH and their length byte equals the result. A call makes at most 264 reads |
| `Serial.ReceiveGivesUp` | SBoninLab04_V2/ComPort.cpp:173-176 | ten or more noise reads give 0 after exactly ten reads, with nothing delivered |
| `Framing.PayloadLength` | SBoninLab04_V2/ReadWrite.cpp:70-74 | the number of bytes before the first zero byte: none of them is zero, and the byte at that index is zero when it exists |
| `Framing.Frame` | SBoninLab04_V2/ReadWrite.cpp:69-81 | the frame has length payload + 3, SOH first, its own length in byte 1, the payload in order from byte 2, and checksum 0 |
| `Framing.PayloadOfFrame` | SBoninLab04_V2/ReadWrite.cpp:72-78 | every built frame is well formed, and its payload slots give back the payload |
| `Framing.WellFormedIsFrame` | SBoninLab04_V2/ReadWrite.cpp:75-81 | a byte string is well formed (SOH, matching length byte, checksum 0) if and only if it is the frame built from its own payload slots |
| `Framing.CorruptionDetected` | SBoninLab04_V2/ReadWrite.cpp:50-59 | a frame with any one byte changed fails the checksum |
| `Framing.FrameChecks` | SBoninLab04_V2/ReadWrite.cpp:80-81 | crcCheck over the first lth slots of a buffer holding a built frame succeeds, whatever follows the frame |
| `Framing.ReceiveFrame` | SBoninLab04_V2/ComPort.cpp:154-214 | after at most eight noise reads, a built frame arriving intact is delivered whole in exactly noise + frame-length reads; the result is its length, or -5 for an empty payload |
| `Framing.ReceiveLateHeader` | SBoninLab04_V2/ComPort.cpp:163-177 | after nine noise reads, SOH on the tenth read gives 0 but stays in slot 0. The next call makes no search read and delivers the frame |
| `Framing.FrameRoundTrip` | SBoninLab04_V2/ReadWrite.cpp:36-61 | a frame built from a non-empty payload and received intact passes processRead's length gate and its checksum, and carries the payload that was sent |
| `Framing.StageMessage` | SBoninLab04_V2/ReadWrite.cpp:69-74 | the copy loop stops at the first zero byte of the message and leaves the message bytes two slots up in the zero-filled buffer |
| `Framing.PatchedFrame` | SBoninLab04_V2/ReadWrite.cpp:80-81 | writing crcAdd's result into the last slot of the staged header and payload completes the frame |
| `Framing.ReadWrite.constructor` | SBoninLab04_V2/ReadWrite.cpp:3-6 | the object keeps the port it is given and owns its receive buffer and checksum engine |
| `Framing.ReadWrite.BuildFrame` | SBoninLab04_V2/ReadWrite.cpp:67-81 | the local buffer holds `Frame` of the message before its first zero byte, and the message array is unchanged. The scratch array holds the frame with a 0 check slot, then the zero from slot lth, then its old contents |
| `Framing.ReadWrite.ProcessWrite` | SBoninLab04_V2/ReadWrite.cpp:64-93 | the frame goes into the port's write buffer and the message array is unchanged. The result is the frame length when the write succeeds and -4 otherwise |
| `Framing.ReadWrite.Store` | SBoninLab04_V2/ReadWrite.cpp:45-48 | the first n bytes of the input go into the receive buffer; higher slots are unchanged |
| `Framing.ReadWrite.ProcessRead` | SBoninLab04_V2/ReadWrite.cpp:36-62 | a length that disagrees with byte 1 gives -2 and changes neither buffer. Otherwise the first lth bytes are copied into the receive buffer and the result is lth whatever crcCheck said; the ghost result records the check's outcome |

## Left out

* `printRead` and the whole of Source.cpp: the console output, the menu, port discovery and the reader and main threads. These are input/output and thread set-up.
* The Win32 calls in ComPort.cpp: CreateFile, SetCommTimeouts, SetCommMask, SetFilePointer, the handles and the string conversion. ReadFile is one element of the outcome sequence, and WriteFile is the boolean `writeSucceeds`.
* A WriteFile that writes fewer bytes than asked is not modelled; only success and failure are.
* The event objects and the blocking wait at the start of readPort, which are concurrency. `ReadPort` instead requires `readEnabled`, the state the wait waits for. `WritePort` switches the field off and back on, and there is no interleaving to model.
* The console messages readPort prints on a failed read (ComPort.cpp:196) and writePort prints on a failed write (ComPort.cpp:235) are output only and are not modelled.
* The destructor, `portStatus`, `getPort` and `getName`: handle plumbing.
* The unused fields `_wrtBuff` of ReadWrite and `length` of CRC, and the unused `_eventWrite`.
* `Serial.ComPort.constructor`: the parity flag, which the source never initialises, is left as an arbitrary value.
* `Framing.ReadWrite.BuildFrame`, `Framing.ReadWrite.ProcessWrite`: the message must contain a zero byte within its first 253 slots, as the source's use of it implies; a message without one would make the source read out of bounds. This also holds for main's copy of the user's line, which never zero-terminates the message buffer (Source.cpp).
* `Serial.ComPort.ReadPort`, `Framing.ReadWrite.ProcessWrite`, `Framing.ReadWrite.ProcessRead`: their loops are split into the helper methods `FindHeader`, `FillFrame`, `Deliver`, `ReadFrame`, `StageMessage`, `BuildFrame` and `Store`, one per phase of the source function. Their order and effects are those of the source.
