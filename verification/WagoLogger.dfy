/** The read loop of the Wago UPS logger, against what it reports as a function of its input. */
module WagoLogger {
  import opened Options
  import opened WagoBuffering
  import opened WagoFrames

  /** The reader over the bytes of one payload. */
  class Reader {
    const data: Bytes
    var pos: nat

    ghost predicate Valid()
      reads this
    {
      pos <= |data|
    }

    ghost function Rest(): Bytes
      requires Valid()
      reads this
    {
      data[pos..]
    }

    constructor (data: Bytes)
      ensures Valid() && Rest() == data
    {
      this.data := data;
      pos := 0;
    }

    method ReadByte() returns (b: Option<bv8>)
      requires Valid()
      modifies this
      ensures Valid()
      ensures old(Rest()) == [] ==> b == None && Rest() == []
      ensures old(Rest()) != [] ==> b == Some(old(Rest())[0]) && Rest() == old(Rest())[1..]
    {
      if pos == |data| {
        return None;
      }
      b := Some(data[pos]);
      pos := pos + 1;
    }

    /** `io.ReadFull`: all of the bytes, or everything is consumed and the read fails. */
    method ReadFull(n: nat) returns (bs: Option<Bytes>)
      requires Valid()
      modifies this
      ensures Valid()
      ensures n <= |old(Rest())| ==> bs == Some(old(Rest())[..n]) && Rest() == old(Rest())[n..]
      ensures n > |old(Rest())| ==> bs == None && Rest() == []
    {
      if n <= |data| - pos {
        assert data[pos..pos + n] == Rest()[..n];
        bs := Some(data[pos..pos + n]);
        pos := pos + n;
      } else {
        bs := None;
        pos := |data|;
      }
    }
  }

  /** Go's `bufio.Reader` over the serial line or file. */
  class BufferedReader {
    const buf: array<bv8>
    var r: nat
    var w: nat
    var arrivals: seq<Delivery>

    ghost function Value(): Input
      reads this, buf
    {
      Input(buf[..], r, w, arrivals)
    }

    ghost predicate Valid()
      reads this, buf
    {
      WellFormed(Value())
    }

    ghost function Rest(): Bytes
      requires Valid()
      reads this, buf
    {
      Pending(Value())
    }

    constructor (arrivals: seq<Delivery>)
      ensures Valid() && fresh(buf) && buf.Length == 4096 && r == w == 0 && this.arrivals == arrivals && Rest() == Joined(arrivals)
    {
      buf := new bv8[BUFFER_SIZE];
      r, w := 0, 0;
      this.arrivals := arrivals;
    }

    /** One read of the device, behind the buffered bytes. */
    method Receive()
      requires Valid() && w < BUFFER_SIZE && arrivals != []
      modifies this, buf
      ensures Valid() && Value() == Received(old(Value()))
    {
      var c := Chunk(arrivals, BUFFER_SIZE - w);
      forall k | 0 <= k < |c| {
        buf[w + k] := c[k];
      }
      assert buf[..] == Overwritten(old(buf[..]), w, c);
      arrivals, w := Later(arrivals, BUFFER_SIZE - w), w + |c|;
    }

    /** `fill`: moves the buffered bytes to the start and reads more. */
    method Fill()
      requires Valid() && w - r < BUFFER_SIZE && arrivals != []
      modifies this, buf
      ensures Valid() && Value() == Received(Slid(old(Value())))
    {
      forall k | 0 <= k < w - r {
        buf[k] := buf[r + k];
      }
      assert buf[..] == Overwritten(old(buf[..]), 0, Buffered(old(Value())));
      r, w := 0, w - r;
      Receive();
    }

    method ReadByte() returns (b: Option<bv8>)
      requires Valid()
      modifies this, buf
      ensures Valid()
      ensures old(Rest()) == [] ==> b == None
      ensures old(Rest()) != [] ==> b == Some(old(Rest())[0]) && r > 0 && Value() == Drained(Peeked(old(Value()), 1), 1)
    {
      hide Slid, Received, Joined;
      while r == w
        invariant Valid() && Rest() == old(Rest()) && Peeked(Value(), 1) == Peeked(old(Value()), 1)
        decreases |Joined(arrivals)|
      {
        if arrivals == [] {
          return None;
        }
        Fill();
      }
      assert Rest()[0] == Buffered(Value())[0] == buf[r];
      b := Some(buf[r]);
      r := r + 1;
    }

    method UnreadByte()
      requires Valid() && r > 0
      modifies this
      ensures Valid() && Value() == old(Value()).(r := old(r) - 1)
    {
      r := r - 1;
    }

    /** A view of the next bytes: its place in the buffer. */
    method Peek(n: nat) returns (at: Option<nat>)
      requires Valid() && n <= BUFFER_SIZE
      modifies this, buf
      ensures Valid() && Value() == Peeked(old(Value()), n)
      ensures at == if n <= |old(Rest())| then Some(r) else None
      ensures at.Some? ==> r + n <= buf.Length && forall k :: 0 <= k < n ==> buf[r + k] == old(Rest())[k]
    {
      while w - r < n && arrivals != []
        invariant Valid() && Rest() == old(Rest()) && Peeked(Value(), n) == Peeked(old(Value()), n)
        decreases |Joined(arrivals)|
      {
        Fill();
      }
      PeekedBytes(Value());
      at := if n <= w - r then Some(r) else None;
    }

    /** One read of the device into the empty buffer. */
    method Refill()
      requires Valid() && r == w && arrivals != []
      modifies this, buf
      ensures Valid() && Value() == Refilled(old(Value())) && r < w
    {
      r, w := 0, 0;
      Receive();
    }

    /** The buffered bytes, as far as they are asked for. */
    method Take(n: nat) returns (bs: Bytes)
      requires Valid() && r < w && n > 0
      modifies this
      ensures Valid() && 0 < |bs| <= n && old(Rest()) == bs + Rest()
      ensures n <= |old(Rest())| ==> Drained(old(Value()), n) == Drained(Value(), n - |bs|)
    {
      hide Drained, Pending, Joined;
      var k := if n < w - r then n else w - r;
      PendingAfter(Value(), k);
      if n <= |Rest()| {
        DrainedInParts(Value(), n, k);
      }
      bs := buf[r..r + k];
      assert bs == Buffered(Value())[..k];
      r := r + k;
    }

    /** One read into a slice that is smaller than the buffer. */
    method Read(n: nat) returns (bs: Bytes)
      requires Valid() && 0 < n < BUFFER_SIZE
      modifies this, buf
      ensures Valid() && |bs| <= n && old(Rest()) == bs + Rest() && (bs == [] ==> Rest() == [])
      ensures n <= |old(Rest())| ==> Drained(old(Value()), n) == Drained(Value(), n - |bs|)
    {
      hide Drained, Pending, Refilled;
      bs := [];
      if r == w {
        RefillFirst(Value(), n);
        if arrivals == [] {
          return;
        }
        Refill();
      }
      bs := Take(n);
    }

    /** `io.ReadFull`: all of the bytes, or the read fails at the end of input. */
    method ReadFull(n: nat) returns (bs: Option<Bytes>)
      requires Valid() && n < BUFFER_SIZE
      modifies this, buf
      ensures Valid()
      ensures n <= |old(Rest())| ==> bs == Some(old(Rest())[..n]) && Value() == Drained(old(Value()), n)
      ensures n > |old(Rest())| ==> bs == None
    {
      hide Drained, Pending;
      var got := [];
      while |got| < n
        invariant Valid() && |got| <= n && old(Rest()) == got + Rest()
        invariant n <= |old(Rest())| ==> Drained(old(Value()), n) == Drained(Value(), n - |got|)
        decreases n - |got|
      {
        var bs := Read(n - |got|);
        if bs == [] {
          return None;
        }
        got := got + bs;
      }
      NothingToDrain(Value());
      bs := Some(got);
    }
  }

  /** The status structure that `parseFields` fills in place. */
  class StatusRecord {
    var psuAmps: real
    var batteryVolts: real
    var batteryOutAmps: real
    var temperature: real
    var outputVolts: real
    var psuVolts: real
    var batteryInAmps: real
    var status: int
    var switchPosition: int

    function Value(): Status
      reads this
    {
      Status(psuAmps, batteryVolts, batteryOutAmps, temperature, outputVolts, psuVolts, batteryInAmps,
             status, switchPosition)
    }

    constructor ()
      ensures Value() == ZERO_STATUS
    {
      psuAmps, batteryVolts, batteryOutAmps, temperature := 0.0, 0.0, 0.0, 0.0;
      outputVolts, psuVolts, batteryInAmps := 0.0, 0.0, 0.0;
      status, switchPosition := 0, 0;
    }

    method SetField(tag: bv8, hi: bv8, lo: bv8)
      requires KnownTag(tag)
      modifies this
      ensures Value() == WithField(old(Value()), tag, hi, lo)
    {
      if tag == 0 {
        psuAmps := Scaled(hi, lo, 1000);
      } else if tag == 1 {
        batteryVolts := Scaled(hi, lo, 100);
      } else if tag == 2 {
        batteryOutAmps := Scaled(hi, lo, 1000);
      } else if tag == 3 {
        temperature := Scaled(hi, lo, 100);
      } else if tag == 4 {
        outputVolts := Scaled(hi, lo, 100);
      } else if tag == 5 {
        psuVolts := Scaled(hi, lo, 100);
      } else if tag == 6 {
        batteryInAmps := Scaled(hi, lo, 1000);
      } else if tag == 7 {
        status := Unsigned(hi, lo);
      } else {
        switchPosition := Unsigned(hi, lo);
      }
    }

    /** `parseFields`: reads tags and values until the payload ends; false for an unknown tag or a cut-off value. */
    method ParseFields(payload: Bytes) returns (ok: bool)
      modifies this
      ensures Parsed(payload, old(Value())) == if ok then Some(Value()) else None
    {
      var r := new Reader(payload);
      while true
        invariant r.Valid() && fresh(r)
        invariant Parsed(payload, old(Value())) == Parsed(r.Rest(), Value())
        decreases |r.Rest()|
      {
        ghost var rest := r.Rest();
        var tag := r.ReadByte();
        if tag.None? {
          return true;
        }
        if !KnownTag(tag.value) {
          return false;
        }
        var word := r.ReadFull(2);
        if word.None? {
          return false;
        }
        assert word.value == [rest[1], rest[2]] && r.Rest() == rest[3..];
        SetField(tag.value, word.value[0], word.value[1]);
      }
    }
  }

  method Checksum(packet: Bytes) returns (checksum: bv8)
    ensures checksum == Xor(packet)
  {
    checksum := 0;
    for i := 0 to |packet|
      invariant checksum == Xor(packet[..i])
    {
      assert packet[..i + 1][..i] == packet[..i];
      checksum := checksum ^ packet[i];
    }
    assert packet[..|packet|] == packet;
  }

  /** The handling of one whole packet. The device id is a slice of the reader's buffer, read only when it is needed. */
  method HandlePacket(packet: Bytes, buf: array<bv8>, header: nat) returns (reported: seq<Report>)
    requires FrameShaped(packet) && header + HEADER_SIZE <= buf.Length
    ensures reported == FrameReports(packet, [buf[header + 2], buf[header + 3]])
  {
    var checksum := Checksum(packet);
    if checksum != 0 {
      return [];
    }
    if packet[4] == STATUS_TYPE {
      var status := new StatusRecord();
      var ok := status.ParseFields(packet[HEADER_SIZE..|packet| - 1]);
      if !ok {
        return [];
      }
      return [Report([buf[header + 2], buf[header + 3]], status.Value())];
    }
    return [];
  }

  /** `logData`: every iteration consumes input, and what is reported is the log of that input. */
  method LogData(r: BufferedReader) returns (reports: seq<Report>, ending: Ending)
    requires r.Valid()
    modifies r, r.buf
    ensures Log(reports, ending) == Logged(old(r.Value()))
  {
    hide LoopTurn, Logged, Peeked, Drained, Pending, Buffered, Joined, WellFormed, FrameReports, FrameShaped,
      Continues;
    ghost var log := Logged(r.Value());
    reports := [];
    LogStarts(r.Value());
    while true
      invariant r.Valid()
      invariant Continues(log, reports, r.Value())
      decreases |r.Rest()|
    {
      ghost var start := r.Value();
      ghost var rest := r.Rest();
      var b := r.ReadByte();
      if b.None? {
        LogEnds(start);
        LogStops(log, reports, start);
        return reports, EndOfInput;
      }
      if b.value != SYNC0 {
        LogSkips(start, 1);
        LogContinues(log, reports, start, [], r.Value());
        continue;
      }
      r.UnreadByte();
      UnreadIsPeeked(start);
      var header := r.Peek(HEADER_SIZE);
      PeekedTwice(start);
      if header.None? {
        LogEnds(start);
        LogStops(log, reports, start);
        return reports, EndOfInput;
      }
      var h := header.value;
      assert r.buf[h + 0] == rest[0];
      if r.buf[h] != SYNC0 || r.buf[h + 1] != SYNC1 {
        LogSkips(start, HEADER_SIZE);
        var skipped := r.ReadByte();
        LogContinues(log, reports, start, [], r.Value());
        continue;
      }
      var n := HEADER_SIZE + r.buf[h + 5] as int + 1;
      LogTakes(start, n);
      var packet := r.ReadFull(n);
      if packet.None? {
        LogStops(log, reports, start);
        return reports, CutOffFrame;
      }
      var reported := HandlePacket(packet.value, r.buf, h);
      LogContinues(log, reports, start, reported, r.Value());
      reports := reports + reported;
    }
  }
}
