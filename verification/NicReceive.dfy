/**
 The receive path of device/rtl8139.cpp: reading one frame out of the ring, checking and
 filtering it, and moving the read offset past it.
 */
module NicReceive {
  import opened Machine
  import opened Crc32

  const BUFFER_SIZE := 65536
  const RING_SIZE := 8192
  const HEADER := 4
  const CHECKSUM := 4
  const MIN_FRAME := 18 // two addresses, the type and the checksum

  type Byte = bv8

  datatype Outcome =
    | Nothing                                                   // zero length: nothing consumed
    | Overrun                                                   // the code leaves the frame or the buffer
    | BadCrc
    | Filtered
    | Delivered(dst: seq<Byte>, src: seq<Byte>, protocol: seq<Byte>, payload: seq<Byte>)

  const BROADCAST: seq<Byte> := [0xff, 0xff, 0xff, 0xff, 0xff, 0xff]

  /** What handle_rx does with a frame, checksum included; its two size subtractions may pass below zero. */
  function Verdict(frame: seq<Byte>, mac: seq<Byte>): Outcome
  {
    if |frame| < CHECKSUM then Overrun
    else if !Passes(frame) then BadCrc
    else if |frame| < MIN_FRAME then Overrun
    else if frame[..6] != BROADCAST && frame[..6] != mac then Filtered
    else Delivered(frame[..6], frame[6..12], frame[12..14], frame[14..|frame| - 4])
  }

  /** A frame handle_rx can deal with: long enough for its fixed parts, or for a checksum that does not match. */
  predicate SafeFrame(frame: seq<Byte>)
  {
    |frame| >= MIN_FRAME || (|frame| >= CHECKSUM && !Passes(frame))
  }

  /** The length field of a frame header: the upper half of a little-endian 32-bit word. */
  function Size(lo: Byte, hi: Byte): nat { lo as nat + 256 * (hi as nat) }

  function Align4(n: nat): nat { n / 4 * 4 }

  /** Offset after a frame of the given length was consumed. */
  function NextOffset(offset: nat, size: nat): nat
  {
    Align4(offset + size + 4 + 3) % RING_SIZE
  }

  function HeaderSize(buffer: seq<Byte>, offset: nat): nat
    requires offset + HEADER <= |buffer|
  {
    Size(buffer[offset + 2], buffer[offset + 3])
  }

  /** One call of handle_rx on the ring's content: its outcome and the next offset. */
  function Receive(buffer: seq<Byte>, offset: nat, mac: seq<Byte>): (Outcome, nat)
    requires offset + HEADER <= |buffer|
  {
    var size := HeaderSize(buffer, offset);
    if size == 0 then (Nothing, offset)
    else if offset + HEADER + size > |buffer| then (Overrun, offset)
    else
      var r := Verdict(buffer[offset + HEADER..offset + HEADER + size], mac);
      (r, if r == Overrun then offset else NextOffset(offset, size))
  }

  /** The checks of handle_rx between reading a frame and consuming it. */
  method Judge(data: seq<Byte>, mac: seq<Byte>) returns (r: Outcome)
    ensures r == Verdict(data, mac)
    ensures r.Delivered? ==> Passes(data)
  {
    hide Stored, Crc;
    var size := |data|;
    if size < CHECKSUM { return Overrun; }
    var calculated := Crc32IsoHdlc(0, data[..size - 4]);
    if Stored(data) != calculated { return BadCrc; }
    if size < MIN_FRAME { return Overrun; }
    var payload := data[6 + 6 + 2..size - 4];
    var dst, src, protocol := data[..6], data[6..12], data[12..14];
    if dst != BROADCAST && dst != mac { return Filtered; }
    r := Delivered(dst, src, protocol, payload);
  }

  class Receiver {
    const rxBuffer: array<Byte>
    const mac: seq<Byte>
    var rxOffset: nat
    var capr: nat // current_address_of_packet_read

    ghost predicate Valid()
      reads this
    {
      rxBuffer.Length == BUFFER_SIZE && rxOffset < RING_SIZE && rxOffset % 4 == 0
    }

    constructor (rxBuffer: array<Byte>, mac: seq<Byte>)
      requires rxBuffer.Length == BUFFER_SIZE
      ensures Valid() && this.rxBuffer == rxBuffer && this.mac == mac && rxOffset == 0
    {
      this.rxBuffer := rxBuffer;
      this.mac := mac;
      rxOffset := 0;
      capr := 0;
    }

    /** consume_rx: the register gets the unreduced offset less 16, as a 16-bit number. */
    method ConsumeRx(size: nat)
      requires Valid()
      modifies this
      ensures Valid() && rxOffset == NextOffset(old(rxOffset), size)
      ensures capr == (Align4(old(rxOffset) + size + 7) + U16 - 0x10) % U16
    {
      rxOffset := (rxOffset + size + 4 + 3) / 4 * 4;
      capr := (rxOffset + U16 - 0x10) % U16;
      rxOffset := rxOffset % RING_SIZE;
    }

    /** handle_rx, stopped where the code would leave the frame or the buffer. */
    method HandleRx() returns (r: Outcome)
      requires Valid()
      modifies this
      ensures Valid()
      ensures (r, rxOffset) == Receive(rxBuffer[..], old(rxOffset), mac)
    {
      hide Verdict, NextOffset, Passes;
      var size := Size(rxBuffer[rxOffset + 2], rxBuffer[rxOffset + 3]);
      if size == 0 { return Nothing; }
      if rxOffset + HEADER + size > rxBuffer.Length { return Overrun; }
      var data := rxBuffer[rxOffset + HEADER..rxOffset + HEADER + size];
      assert data == rxBuffer[..][rxOffset + HEADER..rxOffset + HEADER + size];
      r := Judge(data, mac);
      if r != Overrun {
        ConsumeRx(size);
      }
    }
  }

  /** A call stays inside frame and buffer exactly on these headers. */
  lemma {:induction false} ReceiveSafeIff(buffer: seq<Byte>, offset: nat, mac: seq<Byte>)
    requires offset + HEADER <= |buffer|
    ensures var size := HeaderSize(buffer, offset);
      Receive(buffer, offset, mac).0 != Overrun <==>
        (size == 0
         || (offset + HEADER + size <= |buffer| && SafeFrame(buffer[offset + HEADER..offset + HEADER + size])))
  {
    hide Passes;
  }

  // ----- Runs -----

  /** Bytes a frame takes in the ring: header and frame, rounded up to words. */
  function Footprint(size: nat): nat { Align4(size + 4 + 3) }

  function TotalFootprint(frames: seq<seq<Byte>>): nat
  {
    if frames == [] then 0 else TotalFootprint(frames[..|frames| - 1]) + Footprint(|frames[|frames| - 1]|)
  }

  /** Where the device puts the next frame after the given ones. */
  function DevicePointer(frames: seq<seq<Byte>>): nat { TotalFootprint(frames) % RING_SIZE }

  /** The driver: one call of handle_rx per ring content, from offset 0. */
  function Drive(buffers: seq<seq<Byte>>, mac: seq<Byte>): (seq<Outcome>, nat)
    requires forall k :: 0 <= k < |buffers| ==> |buffers[k]| == BUFFER_SIZE
    ensures Drive(buffers, mac).1 < RING_SIZE && |Drive(buffers, mac).0| == |buffers|
  {
    if buffers == [] then ([], 0)
    else
      var n := |buffers| - 1;
      var (done, offset) := Drive(buffers[..n], mac);
      var (r, next) := Receive(buffers[n], offset, mac);
      (done + [r], next)
  }

  lemma {:induction false} ModAdd(a: nat, b: nat)
    ensures (a % RING_SIZE + b) % RING_SIZE == (a + b) % RING_SIZE
  {
  }

  lemma {:induction false} AlignAdd(offset: nat, n: nat)
    requires offset % 4 == 0
    ensures Align4(offset + n) == offset + Align4(n)
    ensures offset + Align4(n) == (offset + Align4(n)) / 4 * 4
  {
  }

  lemma {:induction false} RingAligned(words: nat)
    ensures words * 4 % RING_SIZE % 4 == 0
  {
  }

  lemma {:induction false} NextOffsetAdds(offset: nat, size: nat)
    requires offset % 4 == 0
    ensures NextOffset(offset, size) == (offset + Footprint(size)) % RING_SIZE && NextOffset(offset, size) % 4 == 0
  {
    AlignAdd(offset, size + 7);
    RingAligned((offset + Align4(size + 7)) / 4);
    hide Align4;
  }

  lemma {:induction false} PointerAligned(frames: seq<seq<Byte>>)
    ensures TotalFootprint(frames) % 4 == 0 && DevicePointer(frames) % 4 == 0
    decreases |frames|
  {
    if frames != [] {
      PointerAligned(frames[..|frames| - 1]);
    }
    RingAligned(TotalFootprint(frames) / 4);
  }

  /** Delivered, filtered or dropped, a frame moves the offset from one device pointer to the next. */
  lemma {:induction false} OffsetFollows(frames: seq<seq<Byte>>, frame: seq<Byte>)
    ensures NextOffset(DevicePointer(frames), |frame|) == DevicePointer(frames + [frame])
    ensures DevicePointer(frames) % 4 == 0
  {
    PointerAligned(frames);
    NextOffsetAdds(DevicePointer(frames), |frame|);
    ModAdd(TotalFootprint(frames), Footprint(|frame|));
    assert (frames + [frame])[..|frames|] == frames;
    hide Footprint, NextOffset;
  }

  /** The ring holds a frame, header first, at an offset. */
  ghost predicate Holds(buffer: seq<Byte>, offset: nat, frame: seq<Byte>)
  {
    && |buffer| == BUFFER_SIZE && |frame| > 0
    && offset + HEADER + |frame| <= |buffer|
    && buffer[offset + 2] as nat == |frame| % 256 && buffer[offset + 3] as nat == |frame| / 256
    && buffer[offset + HEADER..offset + HEADER + |frame|] == frame
  }

  /** Ring contents at the successive interrupts: the device put the k-th frame at its own pointer. */
  ghost predicate Stream(frames: seq<seq<Byte>>, buffers: seq<seq<Byte>>)
  {
    && |frames| == |buffers|
    && forall k :: 0 <= k < |frames| ==> Holds(buffers[k], DevicePointer(frames[..k]), frames[k])
  }

  ghost predicate AllSafe(frames: seq<seq<Byte>>)
  {
    forall k :: 0 <= k < |frames| ==> SafeFrame(frames[k])
  }

  function Verdicts(frames: seq<seq<Byte>>, mac: seq<Byte>): seq<Outcome>
  {
    seq(|frames|, k requires 0 <= k < |frames| => Verdict(frames[k], mac))
  }

  lemma {:induction false} StreamSizes(frames: seq<seq<Byte>>, buffers: seq<seq<Byte>>)
    requires Stream(frames, buffers)
    ensures |frames| == |buffers| && forall k :: 0 <= k < |buffers| ==> |buffers[k]| == BUFFER_SIZE
  {
    assert forall k :: 0 <= k < |frames| ==> Holds(buffers[k], DevicePointer(frames[..k]), frames[k]);
  }

  lemma {:induction false} StreamPrefix(frames: seq<seq<Byte>>, buffers: seq<seq<Byte>>, n: nat)
    requires Stream(frames, buffers) && n <= |frames|
    ensures Stream(frames[..n], buffers[..n])
  {
    forall k | 0 <= k < n
      ensures Holds(buffers[..n][k], DevicePointer(frames[..n][..k]), frames[..n][k])
    {
      assert frames[..n][..k] == frames[..k];
      assert Holds(buffers[k], DevicePointer(frames[..k]), frames[k]);
    }
  }

  /** The last call, from the device's pointer before it. */
  lemma {:induction false} LastCall(frames: seq<seq<Byte>>, buffers: seq<seq<Byte>>, mac: seq<Byte>)
    requires Stream(frames, buffers) && frames != []
    ensures var n := |frames| - 1;
      && |buffers[n]| == BUFFER_SIZE
      && var (r, next) := Receive(buffers[n], DevicePointer(frames[..n]), mac);
         && r == Verdict(frames[n], mac) && (r == Overrun <==> !SafeFrame(frames[n]))
         && (SafeFrame(frames[n]) ==> next == DevicePointer(frames))
  {
    var n := |frames| - 1;
    assert Holds(buffers[n], DevicePointer(frames[..n]), frames[n]);
    OffsetFollows(frames[..n], frames[n]);
    assert frames == frames[..n] + [frames[n]];
    hide Passes, NextOffset, TotalFootprint;
  }

  /**
   The calls return the verdicts of the frames, each frame once and in order, and leave the
   driver's offset at the device's pointer.
   */
  lemma {:induction false} EachFrameOnce(frames: seq<seq<Byte>>, buffers: seq<seq<Byte>>, mac: seq<Byte>)
    requires Stream(frames, buffers) && AllSafe(frames)
    ensures forall k :: 0 <= k < |buffers| ==> |buffers[k]| == BUFFER_SIZE
    ensures Drive(buffers, mac) == (Verdicts(frames, mac), DevicePointer(frames))
    decreases |frames|
  {
    hide Stream, Receive, Verdict, SafeFrame;
    StreamSizes(frames, buffers);
    if frames == [] {
      assert buffers == [] && Verdicts(frames, mac) == [] && DevicePointer(frames) == 0;
    } else {
      var n := |frames| - 1;
      StreamPrefix(frames, buffers, n);
      hide DevicePointer;
      EachFrameOnce(frames[..n], buffers[..n], mac);
      LastCall(frames, buffers, mac);
      assert Verdicts(frames, mac) == Verdicts(frames[..n], mac) + [Verdict(frames[n], mac)];
    }
  }

  /** The driver gets through a stream without leaving a frame exactly when every frame is safe. */
  lemma {:induction false} DriverSafeIff(frames: seq<seq<Byte>>, buffers: seq<seq<Byte>>, mac: seq<Byte>)
    requires Stream(frames, buffers)
    ensures forall k :: 0 <= k < |buffers| ==> |buffers[k]| == BUFFER_SIZE
    ensures Overrun !in Drive(buffers, mac).0 <==> AllSafe(frames)
    decreases |frames|
  {
    hide Stream, Receive, Verdict, SafeFrame, DevicePointer, Verdicts;
    StreamSizes(frames, buffers);
    if frames != [] {
      var n := |frames| - 1;
      StreamPrefix(frames, buffers, n);
      DriverSafeIff(frames[..n], buffers[..n], mac);
      assert AllSafe(frames) <==> AllSafe(frames[..n]) && SafeFrame(frames[n]);
      if AllSafe(frames[..n]) {
        EachFrameOnce(frames[..n], buffers[..n], mac);
        LastCall(frames, buffers, mac);
      }
    }
  }

  /** A short frame with a matching checksum: the payload's length passes below zero. */
  lemma {:induction false} ShortFrameOverruns(data: seq<Byte>, mac: seq<Byte>)
    requires |data| + CHECKSUM < MIN_FRAME
    ensures Verdict(data + LittleEndian(Crc(data)), mac) == Overrun
  {
    SentFramePasses(data);
    hide Crc, LittleEndian, Passes;
  }

  /** A frame sent to this station or to all arrives as it was sent. */
  lemma {:induction false} SentFrameDelivered(dst: seq<Byte>, src: seq<Byte>, protocol: seq<Byte>, payload: seq<Byte>,
                                              mac: seq<Byte>)
    requires |dst| == 6 && |src| == 6 && |protocol| == 2
    ensures var data := dst + src + protocol + payload;
      var frame := data + LittleEndian(Crc(data));
      |frame| >= MIN_FRAME && Verdict(frame, mac)
        == (if dst == mac || dst == BROADCAST then Delivered(dst, src, protocol, payload) else Filtered)
  {
    var data := dst + src + protocol + payload;
    SentFramePasses(data);
    hide Crc, LittleEndian, Passes;
    var frame := data + LittleEndian(Crc(data));
    assert frame[..6] == dst && frame[6..12] == src && frame[12..14] == protocol;
    assert frame[14..|frame| - 4] == payload;
  }
}
