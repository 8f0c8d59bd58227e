/** The buffered reader under the Wago UPS logger, as values, and what the logger reports through it.
  *
  * `Peek` returns a view of the reader's own buffer, and the device id is copied out of that view only after the whole
  * frame was read. A frame that is not buffered yet is fetched by refills that overwrite the buffer from its start. */
module WagoBuffering {
  import opened WagoFrames

  /** The default buffer size of Go's bufio package. */
  const BUFFER_SIZE := 4096

  /** What the device has ready at one time: at least a byte. */
  type Delivery = bs: Bytes | bs != [] witness [0]

  /** Buffer, read and write positions, and what the device will still deliver: every read of the device takes as much
    * of the next delivery as there is room for. */
  datatype Input = Input(buf: Bytes, r: nat, w: nat, arrivals: seq<Delivery>)

  predicate WellFormed(i: Input) {
    |i.buf| == BUFFER_SIZE && i.r <= i.w <= BUFFER_SIZE
  }

  function Joined(chunks: seq<Delivery>): Bytes {
    if chunks == [] then [] else chunks[0] + Joined(chunks[1..])
  }

  function Buffered(i: Input): (bs: Bytes)
    requires WellFormed(i)
    ensures |bs| == i.w - i.r
  {
    i.buf[i.r..i.w]
  }

  /** The bytes that can still be read. */
  function Pending(i: Input): Bytes
    requires WellFormed(i)
  {
    Buffered(i) + Joined(i.arrivals)
  }

  /** The bytes that one read of the device puts into a given room. */
  function Chunk(arrivals: seq<Delivery>, room: nat): (c: Delivery)
    requires arrivals != [] && room > 0
    ensures |c| <= room && c <= arrivals[0]
  {
    if |arrivals[0]| <= room then arrivals[0] else arrivals[0][..room]
  }

  function Later(arrivals: seq<Delivery>, room: nat): seq<Delivery>
    requires arrivals != []
  {
    if |arrivals[0]| <= room then arrivals[1..] else [arrivals[0][room..]] + arrivals[1..]
  }

  lemma JoinedCons(c: Delivery, cs: seq<Delivery>)
    ensures Joined([c] + cs) == c + Joined(cs)
  {
    assert ([c] + cs)[1..] == cs;
  }

  lemma ChunkThenLater(arrivals: seq<Delivery>, room: nat)
    requires arrivals != [] && room > 0
    ensures Joined(arrivals) == Chunk(arrivals, room) + Joined(Later(arrivals, room))
  {
    var first := arrivals[0];
    if |first| > room {
      var rest: Delivery := first[room..];
      JoinedCons(rest, arrivals[1..]);
      assert first == first[..room] + rest;
    }
  }

  /** Bytes written over a buffer. */
  function Overwritten(buf: Bytes, at: nat, bs: Bytes): (r: Bytes)
    requires at + |bs| <= |buf|
    ensures |r| == |buf|
  {
    buf[..at] + bs + buf[at + |bs|..]
  }

  /** After one read of the device that lands behind the buffered bytes. */
  function Received(i: Input): (j: Input)
    requires WellFormed(i) && i.w < BUFFER_SIZE && i.arrivals != []
    ensures WellFormed(j) && Pending(j) == Pending(i)
    ensures j.r == i.r && j.w > i.w && |Joined(j.arrivals)| < |Joined(i.arrivals)|
  {
    ChunkThenLater(i.arrivals, BUFFER_SIZE - i.w);
    var c := Chunk(i.arrivals, BUFFER_SIZE - i.w);
    var j := Input(Overwritten(i.buf, i.w, c), i.r, i.w + |c|, Later(i.arrivals, BUFFER_SIZE - i.w));
    assert Buffered(j) == Buffered(i) + c;
    j
  }

  /** The buffered bytes moved to the start of the buffer. */
  function Slid(i: Input): (j: Input)
    requires WellFormed(i)
    ensures WellFormed(j) && Pending(j) == Pending(i) && j.arrivals == i.arrivals
    ensures j.r == 0 && j.w == i.w - i.r
  {
    var j := Input(Overwritten(i.buf, 0, Buffered(i)), 0, i.w - i.r, i.arrivals);
    assert Buffered(j) == Buffered(i);
    j
  }

  /** After `Peek`: at least n bytes are buffered, or all there are. */
  function Peeked(i: Input, n: nat): (j: Input)
    requires WellFormed(i) && n <= BUFFER_SIZE
    ensures WellFormed(j) && Pending(j) == Pending(i)
    ensures |Buffered(j)| >= n || (j.arrivals == [] && |Pending(i)| < n)
    decreases |Joined(i.arrivals)|
  {
    if |Buffered(i)| >= n || i.arrivals == [] then i
    else Peeked(Received(Slid(i)), n)
  }

  /** After a read of an empty buffer: the device's bytes land at its start. */
  function Refilled(i: Input): (j: Input)
    requires WellFormed(i) && i.arrivals != []
    ensures WellFormed(j) && Pending(j) == Joined(i.arrivals) && j.r == 0 < j.w
    ensures |Joined(j.arrivals)| < |Joined(i.arrivals)|
  {
    Received(i.(r := 0, w := 0))
  }

  /** After `io.ReadFull` of n bytes. */
  function Drained(i: Input, n: nat): (j: Input)
    requires WellFormed(i) && n <= |Pending(i)|
    ensures WellFormed(j) && Pending(j) == Pending(i)[n..]
    decreases |Joined(i.arrivals)|
  {
    var k := |Buffered(i)|;
    if n <= k then
      assert Buffered(i.(r := i.r + n)) == Buffered(i)[n..];
      i.(r := i.r + n)
    else
      assert Pending(i)[n..] == Joined(i.arrivals)[n - k..];
      Drained(Refilled(i), n - k)
  }

  /** The refills that it needed. */
  function Refills(i: Input, n: nat): seq<Delivery>
    requires WellFormed(i) && n <= |Pending(i)|
    decreases |Joined(i.arrivals)|
  {
    var k := |Buffered(i)|;
    if n <= k then [] else [Chunk(i.arrivals, BUFFER_SIZE)] + Refills(Refilled(i), n - k)
  }

  /** One turn of the read loop. */
  datatype Turn = Ends(ending: Ending) | Skips(next: Input) | Takes(frame: Bytes, header: Input, next: Input)

  /** What `ReadByte`, `UnreadByte`, `Peek` and `ReadFull` make of the input in one turn. */
  function LoopTurn(i: Input): (t: Turn)
    requires WellFormed(i)
    ensures t.Skips? ==> WellFormed(t.next) && Pending(i) != [] && Pending(t.next) == Pending(i)[1..]
    ensures t.Takes? ==> FrameShaped(t.frame) && WellFormed(t.header) && |Buffered(t.header)| >= HEADER_SIZE
    ensures t.Takes? ==> Pending(t.header) == Pending(i) && t.frame <= Pending(i) && t.next == Drained(t.header, |t.frame|)
  {
    var s := Pending(i);
    if s == [] then Ends(EndOfInput)
    else if s[0] != SYNC0 then Skips(Drained(Peeked(i, 1), 1))
    else if |s| < HEADER_SIZE then Ends(EndOfInput)
    else if s[1] != SYNC1 then Skips(Drained(Peeked(i, HEADER_SIZE), 1))
    else
      var n := HEADER_SIZE + s[5] as int + 1;
      if |s| < n then Ends(CutOffFrame)
      else
        var header := Peeked(i, HEADER_SIZE);
        Takes(s[..n], header, Drained(header, n))
  }

  /** The id that is copied after the frame was read: the buffer's bytes at the place where the header was peeked. */
  function CopiedId(header: Input, next: Input): Bytes
    requires WellFormed(header) && WellFormed(next) && |Buffered(header)| >= HEADER_SIZE
  {
    [next.buf[header.r + 2], next.buf[header.r + 3]]
  }

  datatype Log = Log(reports: seq<Report>, ending: Ending)

  /** What the logger reports, wrong ids included. */
  function Logged(i: Input): Log
    requires WellFormed(i)
    decreases |Pending(i)|
  {
    match LoopTurn(i)
    case Ends(ending) => Log([], ending)
    case Skips(next) => Logged(next)
    case Takes(frame, header, next) =>
      var rest := Logged(next);
      Log(FrameReports(frame, CopiedId(header, next)) + rest.reports, rest.ending)
  }

  /** The log consists of the reports made so far and what is logged from here. */
  predicate Continues(log: Log, reports: seq<Report>, i: Input)
    requires WellFormed(i)
  {
    log == Log(reports + Logged(i).reports, Logged(i).ending)
  }

  lemma LogStarts(i: Input)
    requires WellFormed(i)
    ensures Continues(Logged(i), [], i)
  {
    hide Logged;
  }

  lemma LogContinues(log: Log, reports: seq<Report>, i: Input, reported: seq<Report>, j: Input)
    requires WellFormed(i) && WellFormed(j) && Continues(log, reports, i)
    requires Logged(i) == Log(reported + Logged(j).reports, Logged(j).ending)
    ensures Continues(log, reports + reported, j)
    ensures reported == [] ==> Continues(log, reports, j)
  {
    hide Logged;
    assert (reports + reported) + Logged(j).reports == reports + (reported + Logged(j).reports);
    assert reported == [] ==> reports + reported == reports;
  }

  lemma LogStops(log: Log, reports: seq<Report>, i: Input)
    requires WellFormed(i) && Continues(log, reports, i) && Logged(i).reports == []
    ensures log == Log(reports, Logged(i).ending)
  {
    hide Logged;
  }

  lemma LogEnds(i: Input)
    requires WellFormed(i) && (Pending(i) == [] || (Pending(i)[0] == SYNC0 && |Pending(i)| < HEADER_SIZE))
    ensures Logged(i) == Log([], EndOfInput)
  {
  }

  lemma LogSkips(i: Input, n: nat)
    requires WellFormed(i) && Pending(i) != []
    requires if Pending(i)[0] != SYNC0 then n == 1
             else n == HEADER_SIZE <= |Pending(i)| && Pending(i)[1] != SYNC1
    ensures var next := Drained(Peeked(i, n), 1);
      Logged(i) == Log([] + Logged(next).reports, Logged(next).ending)
  {
  }

  lemma LogTakes(i: Input, n: nat)
    requires WellFormed(i) && |Pending(i)| >= HEADER_SIZE && Pending(i)[0] == SYNC0 && Pending(i)[1] == SYNC1
    requires n == HEADER_SIZE + Pending(i)[5] as int + 1
    ensures n > |Pending(i)| ==> Logged(i) == Log([], CutOffFrame)
    ensures n <= |Pending(i)| ==> FrameShaped(Pending(i)[..n])
    ensures n <= |Pending(i)| ==>
      var header := Peeked(i, HEADER_SIZE);
      var next := Drained(header, n);
      Logged(i) == Log(FrameReports(Pending(i)[..n], CopiedId(header, next)) + Logged(next).reports, Logged(next).ending)
  {
    hide Peeked, Drained, Pending, FrameReports;
    if n <= |Pending(i)| {
      assert LoopTurn(i).Takes?;
    }
  }

  lemma PeekedTwice(i: Input)
    requires WellFormed(i)
    ensures Peeked(Peeked(i, 1), HEADER_SIZE) == Peeked(i, HEADER_SIZE)
    ensures Peeked(Peeked(i, HEADER_SIZE), 1) == Peeked(i, HEADER_SIZE)
  {
    hide Received, Slid, Pending;
  }

  lemma UnreadIsPeeked(i: Input)
    requires WellFormed(i) && Pending(i) != []
    ensures var j := Drained(Peeked(i, 1), 1);
      j.r > 0 && j.(r := j.r - 1) == Peeked(i, 1)
  {
    hide Received, Slid;
  }

  lemma NoRefill(i: Input, n: nat)
    requires WellFormed(i) && n <= |Buffered(i)|
    ensures Refills(i, n) == [] && Drained(i, n).buf == i.buf
  {
  }

  lemma MoreArrives(i: Input, n: nat)
    requires WellFormed(i) && |Buffered(i)| < n <= |Pending(i)|
    ensures i.arrivals != [] && n - |Buffered(i)| <= |Pending(Refilled(i))|
  {
    hide Received;
  }

  lemma RefilledBuffer(i: Input)
    requires WellFormed(i) && i.arrivals != []
    ensures var c := Chunk(i.arrivals, BUFFER_SIZE);
      Refilled(i) == Input(Overwritten(i.buf, 0, c), 0, |c|, Later(i.arrivals, BUFFER_SIZE))
  {
    hide Joined, Later, Pending;
  }

  /** One refill more. */
  lemma RefillStep(i: Input, n: nat)
    requires WellFormed(i) && |Buffered(i)| < n <= |Pending(i)|
    ensures i.arrivals != [] && n - |Buffered(i)| <= |Pending(Refilled(i))|
    ensures var c := Chunk(i.arrivals, BUFFER_SIZE);
      Refilled(i) == Input(Overwritten(i.buf, 0, c), 0, |c|, Later(i.arrivals, BUFFER_SIZE))
    ensures Drained(i, n) == Drained(Refilled(i), n - |Buffered(i)|)
    ensures Refills(i, n) == [Chunk(i.arrivals, BUFFER_SIZE)] + Refills(Refilled(i), n - |Buffered(i)|)
  {
    hide Joined, Later, Pending, Refilled;
    MoreArrives(i, n);
    RefilledBuffer(i);
  }

  lemma PendingAfter(i: Input, k: nat)
    requires WellFormed(i) && k <= |Buffered(i)|
    ensures Pending(i) == Buffered(i)[..k] + Pending(i.(r := i.r + k))
  {
    hide Joined;
    assert Buffered(i) == Buffered(i)[..k] + Buffered(i.(r := i.r + k));
  }

  /** Draining bytes in two parts, when the first part is buffered and the second part is nothing or the rest. */
  lemma DrainedInParts(i: Input, n: nat, k: nat)
    requires WellFormed(i) && k <= n <= |Pending(i)| && k <= |Buffered(i)| && (k == n || k == |Buffered(i)|)
    ensures n - k <= |Pending(i.(r := i.r + k))| && Drained(i, n) == Drained(i.(r := i.r + k), n - k)
  {
    hide Received, Pending, Joined;
    PendingAfter(i, k);
    var j := i.(r := i.r + k);
    if k == n {
      NothingToDrain(j);
    } else {
      RefillStep(i, n);
      RefillStep(j, n - k);
    }
  }

  lemma RefillFirst(i: Input, n: nat)
    requires WellFormed(i) && Buffered(i) == [] && n > 0
    ensures i.arrivals == [] ==> Pending(i) == []
    ensures i.arrivals != [] ==> Pending(Refilled(i)) == Pending(i)
    ensures i.arrivals != [] && n <= |Pending(i)| ==> Drained(i, n) == Drained(Refilled(i), n)
  {
  }

  lemma NothingToDrain(i: Input)
    requires WellFormed(i)
    ensures Drained(i, 0) == i
  {
  }

  lemma PeekedBytes(i: Input)
    requires WellFormed(i)
    ensures forall k :: 0 <= k < |Buffered(i)| ==> i.buf[i.r + k] == Pending(i)[k]
  {
    hide Joined;
    assert forall k :: 0 <= k < |Buffered(i)| ==> Buffered(i)[k] == i.buf[i.r + k];
  }

  /** What a turn of the loop means for the frames of the pending bytes. */
  lemma {:induction false} TurnDecodes(i: Input)
    requires WellFormed(i)
    ensures var d := Decode(Pending(i));
      match LoopTurn(i)
      case Ends(ending) => d == Decoded([], ending)
      case Skips(next) => d == Decode(Pending(next))
      case Takes(frame, header, next) =>
        d == Decoded([frame] + Decode(Pending(next)).frames, Decode(Pending(next)).ending)
  {
    hide Decode, Peeked, Drained, Pending, FrameShaped, WellFormed;
    var s := Pending(i);
    if s == [] || (s[0] == SYNC0 && |s| < HEADER_SIZE) {
      DecodeEnds(s);
    } else if s[0] != SYNC0 || s[1] != SYNC1 {
      DecodeSkips(s);
    } else {
      DecodeTakes(s, HEADER_SIZE + s[5] as int + 1);
    }
  }

  lemma StatusesConcat(a: seq<Report>, b: seq<Report>)
    ensures Statuses(a + b) == Statuses(a) + Statuses(b)
  {
  }

  lemma SameStatuses(f: Bytes, id0: Bytes, id1: Bytes)
    requires FrameShaped(f)
    ensures Statuses(FrameReports(f, id0)) == Statuses(FrameReports(f, id1))
  {
    hide Parsed, Xor;
  }

  /** Everything but the ids, for any division of the stream into reads: the frames found and their contents are those
    * of the stream. */
  lemma {:induction false} FieldsIndependentOfReads(i: Input)
    requires WellFormed(i)
    ensures Statuses(Logged(i).reports) == Statuses(Sent(Decode(Pending(i)).frames))
    ensures Logged(i).ending == Decode(Pending(i)).ending
    decreases |Pending(i)|
  {
    hide LoopTurn, Decode, Pending, WellFormed, FrameReports, FrameShaped, CopiedId, Statuses, OwnId, Buffered;
    TurnDecodes(i);
    match LoopTurn(i)
    case Ends(_) =>
    case Skips(next) =>
      FieldsIndependentOfReads(next);
    case Takes(frame, header, next) =>
      FieldsIndependentOfReads(next);
      var frames := Decode(Pending(next)).frames;
      var id := CopiedId(header, next);
      assert ([frame] + frames)[1..] == frames;
      SameStatuses(frame, id, OwnId(frame));
      StatusesConcat(FrameReports(frame, id), Logged(next).reports);
      StatusesConcat(FrameReports(frame, OwnId(frame)), Sent(frames));
  }

  /** A refill that is longer than the header's place in the buffer plus two reaches the id. */
  predicate ReachesId(header: Input, refill: Delivery) {
    |refill| > header.r + 2
  }

  ghost predicate IdStays(header: Input, n: nat)
    requires WellFormed(header) && n <= |Pending(header)|
  {
    forall c :: c in Refills(header, n) ==> !ReachesId(header, c)
  }

  /** Bytes below a position that no refill reaches are kept. */
  lemma {:induction false} UnreachedBytesStay(i: Input, n: nat, at: nat)
    requires WellFormed(i) && n <= |Pending(i)| && at < BUFFER_SIZE
    requires forall c :: c in Refills(i, n) ==> |c| <= at
    ensures Drained(i, n).buf[at] == i.buf[at]
    decreases |Joined(i.arrivals)|
  {
    hide Drained, Refills, Refilled, Pending, Joined, Later;
    if n <= |Buffered(i)| {
      NoRefill(i, n);
    } else {
      RefillStep(i, n);
      assert Chunk(i.arrivals, BUFFER_SIZE) in Refills(i, n);
      UnreachedBytesStay(Refilled(i), n - |Buffered(i)|, at);
    }
  }

  /** A position that some refill reaches ends with a byte that does not depend on what was there. */
  lemma {:induction false} ReachedByteIsNew(i: Input, j: Input, n: nat, at: nat)
    requires WellFormed(i) && WellFormed(j) && i.r == j.r && i.w == j.w && i.arrivals == j.arrivals
    requires n <= |Pending(i)| && n <= |Pending(j)| && at < BUFFER_SIZE
    ensures Refills(i, n) == Refills(j, n)
    ensures i.buf[at] == j.buf[at] || (exists c :: c in Refills(i, n) && |c| > at) ==>
              Drained(i, n).buf[at] == Drained(j, n).buf[at]
    decreases |Joined(i.arrivals)|
  {
    hide Drained, Refills, Refilled, Pending, Joined, Later;
    if n <= |Buffered(i)| {
      NoRefill(i, n);
      NoRefill(j, n);
    } else {
      RefillStep(i, n);
      RefillStep(j, n);
      ReachedByteIsNew(Refilled(i), Refilled(j), n - |Buffered(i)|, at);
    }
  }

  /** The same input with another id in the peeked header. */
  function Readdressed(header: Input, id0: bv8, id1: bv8): (i: Input)
    requires WellFormed(header) && |Buffered(header)| >= HEADER_SIZE
    ensures WellFormed(i)
  {
    header.(buf := header.buf[header.r + 2 := id0][header.r + 3 := id1])
  }

  function WithId(f: Bytes, id0: bv8, id1: bv8): Bytes
    requires |f| >= HEADER_SIZE
  {
    f[2 := id0][3 := id1]
  }

  lemma IdOfConcat(a: Bytes, b: Bytes, id0: bv8, id1: bv8)
    requires |a| >= HEADER_SIZE
    ensures WithId(a + b, id0, id1) == WithId(a, id0, id1) + b
  {
  }

  lemma IdOfPrefix(s: Bytes, n: nat, id0: bv8, id1: bv8)
    requires HEADER_SIZE <= n <= |s|
    ensures WithId(s, id0, id1)[..n] == WithId(s[..n], id0, id1)
  {
  }

  lemma ReaddressedBytes(header: Input, n: nat, id0: bv8, id1: bv8)
    requires WellFormed(header) && |Buffered(header)| >= HEADER_SIZE && HEADER_SIZE <= n <= |Pending(header)|
    ensures |Pending(Readdressed(header, id0, id1))| == |Pending(header)|
    ensures Pending(Readdressed(header, id0, id1))[..n] == WithId(Pending(header)[..n], id0, id1)
  {
    hide Joined;
    assert Buffered(Readdressed(header, id0, id1)) == WithId(Buffered(header), id0, id1);
    IdOfConcat(Buffered(header), Joined(header.arrivals), id0, id1);
    IdOfPrefix(Pending(header), n, id0, id1);
  }

  lemma OwnIdIsPeeked(header: Input, n: nat)
    requires WellFormed(header) && |Buffered(header)| >= HEADER_SIZE && n <= |Pending(header)|
    requires FrameShaped(Pending(header)[..n])
    ensures OwnId(Pending(header)[..n]) == [header.buf[header.r + 2], header.buf[header.r + 3]]
  {
    hide Joined;
    var b, f := Buffered(header), Pending(header)[..n];
    assert f[2] == b[2] && f[3] == b[3];
    assert OwnId(f) == [f[2], f[3]];
  }

  lemma Cancels(x: bv8, a: bv8, b: bv8, a': bv8, b': bv8)
    requires a' ^ b' == a ^ b
    ensures x ^ a ^ a' ^ b ^ b' == x
  {
  }

  lemma ChecksumWithId(f: Bytes, id0: bv8, id1: bv8)
    requires |f| >= HEADER_SIZE
    ensures Xor(WithId(f, id0, id1)) == Xor(f) ^ f[2] ^ id0 ^ f[3] ^ id1
  {
    hide Xor;
    XorUpdate(f, 2, id0);
    XorUpdate(f[2 := id0], 3, id1);
  }

  lemma SameChecksum(f: Bytes, id0: bv8, id1: bv8)
    requires |f| >= HEADER_SIZE && id0 ^ id1 == f[2] ^ f[3]
    ensures Xor(WithId(f, id0, id1)) == Xor(f)
  {
    hide Xor, WithId;
    ChecksumWithId(f, id0, id1);
    Cancels(Xor(f), f[2], f[3], id0, id1);
  }

  /** A frame with another id of the same checksum is as good as the original one. */
  lemma {:induction false} ReaddressedFrame(f: Bytes, id0: bv8, id1: bv8, id: Bytes)
    requires FrameShaped(f) && id0 ^ id1 == f[2] ^ f[3]
    ensures FrameShaped(WithId(f, id0, id1)) && OwnId(WithId(f, id0, id1)) == [id0, id1]
    ensures FrameReports(WithId(f, id0, id1), id) == FrameReports(f, id)
  {
    hide Parsed, Xor;
    SameChecksum(f, id0, id1);
    assert WithId(f, id0, id1)[HEADER_SIZE..|f| - 1] == f[HEADER_SIZE..|f| - 1];
  }

  /** Another id of the same checksum as the header's. */
  predicate SameSum(header: Input, id0: bv8, id1: bv8)
    requires WellFormed(header) && |Buffered(header)| >= HEADER_SIZE
  {
    id0 ^ id1 == header.buf[header.r + 2] ^ header.buf[header.r + 3]
  }

  lemma ReaddressedInput(header: Input, n: nat, id0: bv8, id1: bv8)
    requires WellFormed(header) && |Buffered(header)| >= HEADER_SIZE && n <= |Pending(header)|
    requires FrameShaped(Pending(header)[..n]) && SameSum(header, id0, id1)
    ensures n <= |Pending(Readdressed(header, id0, id1))| && FrameShaped(Pending(Readdressed(header, id0, id1))[..n])
    ensures OwnId(Pending(Readdressed(header, id0, id1))[..n]) == [id0, id1]
    ensures FrameReports(Pending(Readdressed(header, id0, id1))[..n], []) == FrameReports(Pending(header)[..n], [])
  {
    hide Joined, Pending, Buffered, FrameReports;
    OwnIdIsPeeked(header, n);
    ReaddressedBytes(header, n, id0, id1);
    ReaddressedFrame(Pending(header)[..n], id0, id1, []);
  }

  predicate IdRight(header: Input, n: nat)
    requires WellFormed(header) && |Buffered(header)| >= HEADER_SIZE && n <= |Pending(header)|
    requires FrameShaped(Pending(header)[..n])
  {
    CopiedId(header, Drained(header, n)) == OwnId(Pending(header)[..n])
  }

  /** If no refill reaches the id, the copied id is the frame's own. */
  lemma {:induction false} UnreachedIdIsRight(header: Input, n: nat)
    requires WellFormed(header) && |Buffered(header)| >= HEADER_SIZE && n <= |Pending(header)|
    requires FrameShaped(Pending(header)[..n]) && IdStays(header, n)
    ensures IdRight(header, n)
  {
    hide Joined, Drained, Refills, Pending, FrameShaped, OwnId;
    forall c | c in Refills(header, n) ensures |c| <= header.r + 2 {
      assert !ReachesId(header, c);
    }
    UnreachedBytesStay(header, n, header.r + 2);
    UnreachedBytesStay(header, n, header.r + 3);
    OwnIdIsPeeked(header, n);
  }

  /** If a refill reaches the id, the copied id is wrong for the frame itself or for its twin with another id. */
  lemma {:induction false} ReachedIdIsWrong(header: Input, n: nat, id0: bv8, id1: bv8)
    requires WellFormed(header) && |Buffered(header)| >= HEADER_SIZE && n <= |Pending(header)|
    requires FrameShaped(Pending(header)[..n]) && !IdStays(header, n)
    requires SameSum(header, id0, id1) && id0 != header.buf[header.r + 2]
    ensures n <= |Pending(Readdressed(header, id0, id1))| && FrameShaped(Pending(Readdressed(header, id0, id1))[..n])
    ensures !IdRight(header, n) || !IdRight(Readdressed(header, id0, id1), n)
  {
    hide Joined, Drained, Refills, Pending, FrameShaped;
    var c :| c in Refills(header, n) && ReachesId(header, c);
    ReaddressedInput(header, n, id0, id1);
    ReachedByteIsNew(header, Readdressed(header, id0, id1), n, header.r + 2);
    OwnIdIsPeeked(header, n);
  }

  /** The copied id is right, whatever the id is, exactly when no refill for the frame is longer than the header's place
    * in the buffer plus two. The frames with other ids of the same checksum report the same otherwise. */
  lemma {:induction false} IdRightIff(header: Input, n: nat)
    requires WellFormed(header) && |Buffered(header)| >= HEADER_SIZE && n <= |Pending(header)|
    requires FrameShaped(Pending(header)[..n])
    ensures forall id0, id1 | SameSum(header, id0, id1) ::
              var twin := Pending(Readdressed(header, id0, id1));
              && n <= |twin| && FrameShaped(twin[..n]) && OwnId(twin[..n]) == [id0, id1]
              && FrameReports(twin[..n], []) == FrameReports(Pending(header)[..n], [])
    ensures (forall id0, id1 | SameSum(header, id0, id1) :: IdRight(Readdressed(header, id0, id1), n)) <==>
            IdStays(header, n)
    ensures n <= |Buffered(header)| ==> IdStays(header, n)
  {
    hide Joined, Drained, Refills, FrameShaped, FrameReports, OwnId, IdRight, SameSum;
    if n <= |Buffered(header)| {
      NoRefill(header, n);
    }
    forall id0, id1 | SameSum(header, id0, id1)
      ensures var twin := Pending(Readdressed(header, id0, id1));
        && n <= |twin| && FrameShaped(twin[..n]) && OwnId(twin[..n]) == [id0, id1]
        && FrameReports(twin[..n], []) == FrameReports(Pending(header)[..n], [])
      ensures IdStays(header, n) ==> IdRight(Readdressed(header, id0, id1), n)
    {
      ReaddressedInput(header, n, id0, id1);
      ReachedByteIsNew(header, Readdressed(header, id0, id1), n, 0);
      if IdStays(header, n) {
        UnreachedIdIsRight(Readdressed(header, id0, id1), n);
      }
    }
    if !IdStays(header, n) {
      var b0, b1 := header.buf[header.r + 2], header.buf[header.r + 3];
      TwinId(header, b0, b1);
      ReachedIdIsWrong(header, n, b0 ^ 1, b1 ^ 1);
      assert Readdressed(header, b0, b1) == header;
    }
  }

  lemma TwinId(header: Input, b0: bv8, b1: bv8)
    requires WellFormed(header) && |Buffered(header)| >= HEADER_SIZE
    requires b0 == header.buf[header.r + 2] && b1 == header.buf[header.r + 3]
    ensures SameSum(header, b0, b1) && SameSum(header, b0 ^ 1, b1 ^ 1) && b0 ^ 1 != b0
  {
    Cancels(0, b0, b1, b0 ^ 1, b1 ^ 1);
  }

  /** In every turn of a run the id stays. */
  ghost predicate IdsStay(i: Input)
    requires WellFormed(i)
    decreases |Pending(i)|
  {
    match LoopTurn(i)
    case Ends(_) => true
    case Skips(next) => IdsStay(next)
    case Takes(frame, header, next) => IdStays(header, |frame|) && IdsStay(next)
  }

  /** Then the logger reports what was sent. */
  lemma {:induction false} SentIsLogged(i: Input)
    requires WellFormed(i) && IdsStay(i)
    ensures Logged(i) == Log(Sent(Decode(Pending(i)).frames), Decode(Pending(i)).ending)
    decreases |Pending(i)|
  {
    hide LoopTurn, Decode, Pending, WellFormed, FrameReports, FrameShaped, IdStays, Buffered, Drained, CopiedId, OwnId;
    TurnDecodes(i);
    match LoopTurn(i)
    case Ends(_) =>
    case Skips(next) =>
      SentIsLogged(next);
    case Takes(frame, header, next) =>
      SentIsLogged(next);
      assert Pending(header)[..|frame|] == frame;
      UnreachedIdIsRight(header, |frame|);
      var frames := Decode(Pending(next)).frames;
      assert ([frame] + frames)[1..] == frames;
  }

  /** Frames separated by noise, however they arrive: the fields are the frames' own, and so are the ids if they stay. */
  lemma {:induction false} StreamIsLogged(i: Input, items: seq<Item>, tail: Bytes)
    requires WellFormed(i) && (forall item :: item in items ==> Valid(item)) && Noise(tail)
    requires Pending(i) == Stream(items, tail)
    ensures Logged(i).ending == EndOfInput && Statuses(Logged(i).reports) == Statuses(Sent(Frames(items)))
    ensures IdsStay(i) ==> Logged(i).reports == Sent(Frames(items))
  {
    hide Logged, IdsStay, Sent, Statuses, Stream, Decode;
    Resynchronises(items, tail);
    FieldsIndependentOfReads(i);
    if IdsStay(i) {
      SentIsLogged(i);
    }
  }

  lemma OneEntryFrame(e: Entry, id: Bytes)
    requires KnownTag(e.tag)
    ensures var f := StatusFrame(1, 2, 3, [e]);
      && |f| == 10 && f[0] == SYNC0 && f[1] == SYNC1 && f[5] == 3 && f[8] == e.lo && OwnId(f) == [1, 2]
      && FrameReports(f, id) == [Report(id, WithField(ZERO_STATUS, e.tag, e.hi, e.lo))]
  {
    hide Parsed, Xor, WithField;
    var f := StatusFrame(1, 2, 3, [e]);
    assert Payload([e]) == [e.tag, e.hi, e.lo] + Payload([]);
    assert f[..9] + [Xor(f[..9])] == f;
    ChecksumCloses(f[..9]);
    PayloadParses([e], ZERO_STATUS);
    assert f[HEADER_SIZE..9] == Payload([e]);
    assert Updated([e], ZERO_STATUS) == Updated([], WithField(ZERO_STATUS, e.tag, e.hi, e.lo));
  }

  /** A first delivery that suffices for a header is what is peeked. */
  lemma FirstDelivery(i: Input, first: Delivery, later: seq<Delivery>)
    requires WellFormed(i) && i.r == i.w && i.arrivals == [first] + later && HEADER_SIZE <= |first| <= BUFFER_SIZE
    ensures var header := Peeked(i, HEADER_SIZE);
      header.r == 0 && Buffered(header) == first && header.arrivals == later
  {
    hide Joined;
    var header := Received(Slid(i));
    assert header == Input(Overwritten(Slid(i).buf, 0, first), 0, |first|, later);
    assert Buffered(header) == first;
    assert Peeked(header, HEADER_SIZE) == header;
  }

  /** A last delivery lands at the start of the buffer. */
  lemma LastDelivery(header: Input, last: Delivery, n: nat)
    requires WellFormed(header) && header.arrivals == [last] && |last| <= BUFFER_SIZE && n == |Buffered(header)| + |last|
    ensures n == |Pending(header)| && Pending(Drained(header, n)) == [] && last <= Drained(header, n).buf
  {
    hide Received;
    assert Joined([last]) == last + Joined([]);
    RefillStep(header, n);
    NoRefill(Refilled(header), |last|);
  }

  lemma SameBytes(i: Input, f: Bytes)
    requires WellFormed(i) && i.r == i.w && |f| > HEADER_SIZE && i.arrivals == [f[..HEADER_SIZE], f[HEADER_SIZE..]]
    ensures Pending(i) == f
  {
    assert Joined(i.arrivals) == f[..HEADER_SIZE] + Joined([i.arrivals[1]]);
    assert Joined([i.arrivals[1]]) == f[HEADER_SIZE..] + Joined([]);
  }

  /** A frame of one value that arrives as its header and then the rest: the device that is named is not the sender, but
    * the last value byte and the checksum. */
  lemma {:induction false} WrongId(buf: Bytes, e: Entry)
    requires |buf| == BUFFER_SIZE && KnownTag(e.tag)
    ensures var f := StatusFrame(1, 2, 3, [e]);
      var status := WithField(ZERO_STATUS, e.tag, e.hi, e.lo);
      && |f| == 10 && f[8] == e.lo && FrameShaped(f) && Sent([f]) == [Report([1, 2], status)]
      && Logged(Input(buf, 0, 0, [f[..HEADER_SIZE], f[HEADER_SIZE..]])) == Log([Report([f[8], f[9]], status)], EndOfInput)
  {
    hide Logged, Peeked, Drained, Pending, Buffered, Joined, FrameReports, StatusFrame, WithField;
    var f := StatusFrame(1, 2, 3, [e]);
    OneEntryFrame(e, [1, 2]);
    OneEntryFrame(e, [f[8], f[9]]);
    assert Sent([f]) == FrameReports(f, OwnId(f)) + Sent([]);
    var i := Input(buf, 0, 0, [f[..HEADER_SIZE], f[HEADER_SIZE..]]);
    FirstDelivery(i, f[..HEADER_SIZE], [f[HEADER_SIZE..]]);
    var header := Peeked(i, HEADER_SIZE);
    LastDelivery(header, f[HEADER_SIZE..], 10);
    SameBytes(i, f);
    LogTakes(i, 10);
    LogEnds(Drained(header, 10));
    assert f[..10] == f;
  }
}
