/** The frames and status payloads of the Wago UPS logger (bedroom-pi/go/cmd/wago-logger/main.go), as values. */
module WagoFrames {
  import opened Options

  type Bytes = seq<bv8>

  const SYNC0: bv8 := 0x55
  const SYNC1: bv8 := 0xAA
  const HEADER_SIZE := 6
  const STATUS_TYPE: bv8 := 3

  /** The fields of a status payload, in the order of their tags. */
  datatype Status = Status(psuAmps: real, batteryVolts: real, batteryOutAmps: real, temperature: real,
                           outputVolts: real, psuVolts: real, batteryInAmps: real,
                           status: int, switchPosition: int)

  /** What the logger writes for one status frame. */
  datatype Report = Report(deviceId: Bytes, status: Status)

  const ZERO_STATUS := Status(0.0, 0.0, 0.0, 0.0, 0.0, 0.0, 0.0, 0, 0)

  /** A big-endian 16-bit word. */
  function Unsigned(hi: bv8, lo: bv8): (r: int)
    ensures 0 <= r < 0x1_0000 && r / 0x100 == hi as int && r % 0x100 == lo as int
  {
    (hi as int) * 0x100 + lo as int
  }

  function Signed(hi: bv8, lo: bv8): (r: int)
    ensures -0x8000 <= r < 0x8000 && (r - Unsigned(hi, lo)) % 0x1_0000 == 0
  {
    if Unsigned(hi, lo) < 0x8000 then Unsigned(hi, lo) else Unsigned(hi, lo) - 0x1_0000
  }

  lemma TwosComplement(hi: bv8, lo: bv8)
    ensures Signed(hi, lo) == 0x100 * hi as int + lo as int - if hi as int < 0x80 then 0 else 0x1_0000
  {
  }

  function Scaled(hi: bv8, lo: bv8, divisor: int): real
    requires divisor > 0
  {
    Signed(hi, lo) as real / divisor as real
  }

  /** A two's complement big-endian word in hundredths or thousandths. */
  lemma ScaledIsWord(hi: bv8, lo: bv8)
    ensures var word := 0x100 * hi as int + lo as int - if hi as int < 0x80 then 0 else 0x1_0000;
      Scaled(hi, lo, 100) * 100.0 == word as real && Scaled(hi, lo, 1000) * 1000.0 == word as real
  {
    hide Signed;
    TwosComplement(hi, lo);
  }

  predicate KnownTag(tag: bv8) {
    tag <= 8
  }

  /** The record after one tag and value. */
  function WithField(s: Status, tag: bv8, hi: bv8, lo: bv8): Status
    requires KnownTag(tag)
  {
    if tag == 0 then s.(psuAmps := Scaled(hi, lo, 1000))
    else if tag == 1 then s.(batteryVolts := Scaled(hi, lo, 100))
    else if tag == 2 then s.(batteryOutAmps := Scaled(hi, lo, 1000))
    else if tag == 3 then s.(temperature := Scaled(hi, lo, 100))
    else if tag == 4 then s.(outputVolts := Scaled(hi, lo, 100))
    else if tag == 5 then s.(psuVolts := Scaled(hi, lo, 100))
    else if tag == 6 then s.(batteryInAmps := Scaled(hi, lo, 1000))
    else if tag == 7 then s.(status := Unsigned(hi, lo))
    else s.(switchPosition := Unsigned(hi, lo))
  }

  /** What a payload of tags and two-byte values makes of a record; nothing for an unknown tag or a cut-off value. */
  function Parsed(payload: Bytes, s: Status): Option<Status>
    decreases |payload|
  {
    if payload == [] then Some(s)
    else if !KnownTag(payload[0]) || |payload| < 3 then None
    else Parsed(payload[3..], WithField(s, payload[0], payload[1], payload[2]))
  }

  function Xor(bs: Bytes): bv8 {
    if bs == [] then 0 else Xor(bs[..|bs| - 1]) ^ bs[|bs| - 1]
  }

  /** Starts with the sync bytes and is as long as its length byte says. */
  predicate FrameShaped(f: Bytes) {
    |f| > HEADER_SIZE && f[0] == SYNC0 && f[1] == SYNC1 && |f| == HEADER_SIZE + f[5] as int + 1
  }

  /** What a whole frame reports under a device id: nothing unless its checksum is right, it is a status frame and its
    * payload parses. */
  function FrameReports(f: Bytes, id: Bytes): seq<Report>
    requires FrameShaped(f)
  {
    if Xor(f) != 0 || f[4] != STATUS_TYPE then []
    else
      match Parsed(f[HEADER_SIZE..|f| - 1], ZERO_STATUS)
      case None => []
      case Some(s) => [Report(id, s)]
  }

  /** The id a frame carries. */
  function OwnId(f: Bytes): Bytes
    requires FrameShaped(f)
  {
    f[2..4]
  }

  /** What frames report when every report names the id of its own frame. */
  function Sent(frames: seq<Bytes>): seq<Report>
    requires forall f :: f in frames ==> FrameShaped(f)
  {
    if frames == [] then [] else FrameReports(frames[0], OwnId(frames[0])) + Sent(frames[1..])
  }

  /** Reports without their ids. */
  function Statuses(reports: seq<Report>): (r: seq<Status>)
    ensures |r| == |reports|
  {
    seq(|reports|, i requires 0 <= i < |reports| => reports[i].status)
  }

  datatype Ending = EndOfInput | CutOffFrame

  datatype Decoded = Decoded(frames: seq<Bytes>, ending: Ending)

  /** The frames found in a byte stream. */
  function Decode(s: Bytes): (d: Decoded)
    ensures forall f :: f in d.frames ==> FrameShaped(f)
    decreases |s|
  {
    if s == [] then Decoded([], EndOfInput)
    else if s[0] != SYNC0 then Decode(s[1..])
    else if |s| < HEADER_SIZE then Decoded([], EndOfInput)
    else if s[1] != SYNC1 then Decode(s[1..])
    else
      var n := HEADER_SIZE + s[5] as int + 1;
      if |s| < n then Decoded([], CutOffFrame)
      else
        var rest := Decode(s[n..]);
        Decoded([s[..n]] + rest.frames, rest.ending)
  }

  lemma DecodeSkips(s: Bytes)
    requires s != [] && (s[0] != SYNC0 || (|s| >= HEADER_SIZE && s[1] != SYNC1))
    ensures Decode(s) == Decode(s[1..])
  {
  }

  lemma DecodeTakes(s: Bytes, n: nat)
    requires |s| >= HEADER_SIZE && s[0] == SYNC0 && s[1] == SYNC1 && n == HEADER_SIZE + s[5] as int + 1
    ensures |s| < n ==> Decode(s) == Decoded([], CutOffFrame)
    ensures n <= |s| ==> FrameShaped(s[..n])
    ensures n <= |s| ==> Decode(s) == Decoded([s[..n]] + Decode(s[n..]).frames, Decode(s[n..]).ending)
  {
  }

  lemma DecodeEnds(s: Bytes)
    requires s == [] || (s[0] == SYNC0 && |s| < HEADER_SIZE)
    ensures Decode(s) == Decoded([], EndOfInput)
  {
  }

  /** Bytes in which the sync pair does not occur. A lone first sync byte may. */
  predicate Noise(bs: Bytes) {
    forall i :: 0 <= i < |bs| - 1 ==> !(bs[i] == SYNC0 && bs[i + 1] == SYNC1)
  }

  datatype Item = Item(noise: Bytes, frame: Bytes)

  predicate Valid(item: Item) {
    Noise(item.noise) && FrameShaped(item.frame)
  }

  function Stream(items: seq<Item>, tail: Bytes): Bytes {
    if items == [] then tail else items[0].noise + (items[0].frame + Stream(items[1..], tail))
  }

  function Frames(items: seq<Item>): (frames: seq<Bytes>)
    requires forall item :: item in items ==> Valid(item)
    ensures |frames| == |items|
    ensures forall f :: f in frames ==> FrameShaped(f)
  {
    if items == [] then []
    else
      assert Valid(items[0]);
      [items[0].frame] + Frames(items[1..])
  }

  /** Noise is skipped byte by byte, up to the end of input or the next frame. */
  lemma {:induction false} SkipsNoise(noise: Bytes, rest: Bytes)
    requires Noise(noise)
    requires rest == [] || rest[0] == SYNC0
    ensures Decode(noise + rest) == Decode(rest)
  {
    var s := noise + rest;
    if noise == [] {
      assert s == rest;
    } else {
      assert s[1..] == noise[1..] + rest;
      assert Noise(noise[1..]) by {
        forall i | 0 <= i < |noise[1..]| - 1 ensures !(noise[1..][i] == SYNC0 && noise[1..][i + 1] == SYNC1) {
          assert noise[1..][i] == noise[i + 1] && noise[1..][i + 1] == noise[i + 2];
        }
      }
      if |s| >= HEADER_SIZE && s[0] == SYNC0 {
        assert s[1] != SYNC1;
      }
      SkipsNoise(noise[1..], rest);
      if |s| < HEADER_SIZE {
        ShortInput(s);
        ShortInput(rest);
      }
    }
  }

  lemma {:induction false} ShortInput(s: Bytes)
    requires |s| < HEADER_SIZE
    ensures Decode(s) == Decoded([], EndOfInput)
  {
    if s != [] {
      ShortInput(s[1..]);
    }
  }

  /** Frames separated by noise are found one by one, whatever comes after them. */
  lemma {:induction false} DecodeStream(items: seq<Item>, tail: Bytes)
    requires forall item :: item in items ==> Valid(item)
    ensures Decode(Stream(items, tail)) == Decoded(Frames(items) + Decode(tail).frames, Decode(tail).ending)
    decreases |items|
  {
    hide Decode, FrameShaped, Noise;
    if items == [] {
      assert Frames(items) + Decode(tail).frames == Decode(tail).frames;
    } else {
      var item, later := items[0], items[1..];
      var rest := Stream(later, tail);
      assert Valid(item);
      FrameFirst(item.frame, rest);
      SkipsNoise(item.noise, item.frame + rest);
      DecodeStream(later, tail);
      assert [item.frame] + (Frames(later) + Decode(tail).frames) == Frames(items) + Decode(tail).frames;
    }
  }

  lemma FrameFirst(frame: Bytes, rest: Bytes)
    requires FrameShaped(frame)
    ensures (frame + rest)[0] == SYNC0
    ensures Decode(frame + rest) == Decoded([frame] + Decode(rest).frames, Decode(rest).ending)
  {
    hide Decode;
    var s := frame + rest;
    assert s[..|frame|] == frame && s[|frame|..] == rest;
    DecodeTakes(s, |frame|);
  }

  /** Resynchronisation: of frames separated by noise exactly these frames are found, in order. */
  lemma {:induction false} Resynchronises(items: seq<Item>, tail: Bytes)
    requires (forall item :: item in items ==> Valid(item)) && Noise(tail)
    ensures Decode(Stream(items, tail)) == Decoded(Frames(items), EndOfInput)
  {
    hide Decode, Stream, Frames;
    DecodeStream(items, tail);
    SkipsNoise(tail, []);
    DecodeEnds([]);
    assert tail + [] == tail;
  }

  /** A last frame that is cut off ends the run with an error, or quietly if not even its header is whole. */
  lemma {:induction false} CutOffFrameEnds(items: seq<Item>, noise: Bytes, frame: Bytes, n: nat)
    requires (forall item :: item in items ==> Valid(item)) && Noise(noise) && FrameShaped(frame) && n < |frame|
    ensures Decode(Stream(items, noise + frame[..n])) ==
            Decoded(Frames(items), if n < HEADER_SIZE then EndOfInput else CutOffFrame)
  {
    hide Decode, Stream, Frames;
    DecodeStream(items, noise + frame[..n]);
    SkipsNoise(noise, frame[..n]);
    if n < HEADER_SIZE {
      ShortInput(frame[..n]);
    } else {
      DecodeTakes(frame[..n], |frame|);
    }
  }

  lemma {:induction false} XorUpdate(bs: Bytes, k: nat, b: bv8)
    requires k < |bs|
    ensures Xor(bs[k := b]) == Xor(bs) ^ bs[k] ^ b
  {
    var n := |bs| - 1;
    if k < n {
      assert bs[k := b][..n] == bs[..n][k := b];
      XorUpdate(bs[..n], k, b);
    } else {
      assert bs[k := b][..n] == bs[..n];
    }
  }

  /** Changing one byte outside the sync and length bytes of a correct frame makes the frame be rejected whole. */
  lemma {:induction false} OneByteErrorRejected(f: Bytes, k: nat, b: bv8, id: Bytes)
    requires FrameShaped(f) && Xor(f) == 0
    requires k < |f| && k != 0 && k != 1 && k != 5 && b != f[k]
    ensures FrameShaped(f[k := b]) && FrameReports(f[k := b], id) == []
  {
    XorUpdate(f, k, b);
  }

  lemma {:induction false} FramesConcat(a: seq<Item>, b: seq<Item>)
    requires forall item :: item in a + b ==> Valid(item)
    ensures (forall item :: item in a ==> Valid(item)) && forall item :: item in b ==> Valid(item)
    ensures Frames(a + b) == Frames(a) + Frames(b)
  {
    assert forall item :: item in a || item in b ==> item in a + b;
    if a == [] {
      assert a + b == b;
    } else {
      assert (a + b)[1..] == a[1..] + b;
      FramesConcat(a[1..], b);
    }
  }

  lemma {:induction false} SentConcat(a: seq<Bytes>, b: seq<Bytes>)
    requires (forall f :: f in a ==> FrameShaped(f)) && forall f :: f in b ==> FrameShaped(f)
    ensures Sent(a + b) == Sent(a) + Sent(b)
  {
    hide FrameReports, OwnId, FrameShaped;
    if a == [] {
      assert a + b == b;
    } else {
      assert (a + b)[1..] == a[1..] + b;
      SentConcat(a[1..], b);
    }
  }

  /** In a stream, such an error costs exactly that frame's report: every other frame is still found, in order. */
  lemma {:induction false} OneByteErrorDropsOneFrame(before: seq<Item>, hit: Item, after: seq<Item>, tail: Bytes,
                                                     k: nat, b: bv8)
    requires (forall item :: item in before + [hit] + after ==> Valid(item)) && Noise(tail)
    requires Xor(hit.frame) == 0 && k < |hit.frame| && k != 0 && k != 1 && k != 5 && b != hit.frame[k]
    ensures (forall item :: item in before ==> Valid(item)) && forall item :: item in after ==> Valid(item)
    ensures var d := Decode(Stream(before + [hit.(frame := hit.frame[k := b])] + after, tail));
      Sent(d.frames) == Sent(Frames(before)) + Sent(Frames(after)) && d.ending == EndOfInput
  {
    hide Decode, Stream, FrameReports;
    var hit' := hit.(frame := hit.frame[k := b]);
    assert hit in before + [hit] + after && Valid(hit);
    OneByteErrorRejected(hit.frame, k, b, hit'.frame[2..4]);
    assert forall item :: item in before || item in after ==> item in before + [hit] + after;
    Resynchronises(before + [hit'] + after, tail);
    FramesConcat(before + [hit'], after);
    FramesConcat(before, [hit']);
    assert Frames([hit']) == [hit'.frame];
    SentConcat(Frames(before) + [hit'.frame], Frames(after));
    SentConcat(Frames(before), [hit'.frame]);
    assert Sent([hit'.frame]) == FrameReports(hit'.frame, OwnId(hit'.frame)) + Sent([]);
  }

  datatype Entry = Entry(tag: bv8, hi: bv8, lo: bv8)

  predicate Known(es: seq<Entry>) {
    forall e :: e in es ==> KnownTag(e.tag)
  }

  function Payload(es: seq<Entry>): (p: Bytes)
    ensures |p| == 3 * |es|
  {
    if es == [] then [] else [es[0].tag, es[0].hi, es[0].lo] + Payload(es[1..])
  }

  /** A status frame with a correct checksum. */
  function StatusFrame(id0: bv8, id1: bv8, size: bv8, es: seq<Entry>): (f: Bytes)
    requires size as int == 3 * |es|
  {
    var body := [SYNC0, SYNC1, id0, id1, STATUS_TYPE, size] + Payload(es);
    body + [Xor(body)]
  }

  function Updated(es: seq<Entry>, s: Status): Status
    requires Known(es)
    decreases |es|
  {
    if es == [] then s else Updated(es[1..], WithField(s, es[0].tag, es[0].hi, es[0].lo))
  }

  lemma {:induction false} PayloadParses(es: seq<Entry>, s: Status)
    requires Known(es)
    ensures Parsed(Payload(es), s) == Some(Updated(es, s))
    decreases |es|
  {
    if es != [] {
      assert Payload(es)[3..] == Payload(es[1..]);
      PayloadParses(es[1..], WithField(s, es[0].tag, es[0].hi, es[0].lo));
    }
  }

  /** A payload parses exactly when it is a sequence of known tags with whole values. */
  lemma {:induction false} ParsesIff(payload: Bytes, s: Status)
    ensures Parsed(payload, s).Some? <==> exists es :: Known(es) && payload == Payload(es)
    ensures payload != [] && payload[0] as int > 8 ==> Parsed(payload, s).None?
    decreases |payload|
  {
    if Parsed(payload, s).Some? {
      var es := EntriesOf(payload, s);
    } else if es :| Known(es) && payload == Payload(es) {
      PayloadParses(es, s);
    }
  }

  lemma {:induction false} EntriesOf(payload: Bytes, s: Status) returns (es: seq<Entry>)
    requires Parsed(payload, s).Some?
    ensures Known(es) && payload == Payload(es)
    decreases |payload|
  {
    if payload == [] {
      es := [];
    } else {
      var first := Entry(payload[0], payload[1], payload[2]);
      var rest := EntriesOf(payload[3..], WithField(s, first.tag, first.hi, first.lo));
      es := [first] + rest;
      assert es[1..] == rest;
      assert payload == [payload[0], payload[1], payload[2]] + payload[3..];
    }
  }

  /** A frame reports something exactly when its checksum is right, it is a status frame and its payload is whole. */
  lemma {:induction false} ReportsIff(f: Bytes, id: Bytes)
    requires FrameShaped(f)
    ensures FrameReports(f, id) != [] <==>
      Xor(f) == 0 && f[4] == STATUS_TYPE && exists es :: Known(es) && f[HEADER_SIZE..|f| - 1] == Payload(es)
  {
    hide Parsed, Payload, Known, Xor;
    ParsesIff(f[HEADER_SIZE..|f| - 1], ZERO_STATUS);
  }

  /** The field a tag names, as a number. */
  function FieldOf(s: Status, tag: bv8): real
    requires KnownTag(tag)
  {
    if tag == 0 then s.psuAmps else if tag == 1 then s.batteryVolts else if tag == 2 then s.batteryOutAmps
    else if tag == 3 then s.temperature else if tag == 4 then s.outputVolts else if tag == 5 then s.psuVolts
    else if tag == 6 then s.batteryInAmps else if tag == 7 then s.status as real else s.switchPosition as real
  }

  /** The number a value stands for under a tag. */
  function Meaning(tag: bv8, hi: bv8, lo: bv8): real
    requires KnownTag(tag)
  {
    if tag == 7 || tag == 8 then Unsigned(hi, lo) as real
    else Scaled(hi, lo, if tag == 0 || tag == 2 || tag == 6 then 1000 else 100)
  }

  /** The last entry with a tag. */
  function LastWrite(es: seq<Entry>, tag: bv8): (r: Option<Entry>)
    ensures r.Some? ==> r.value in es && r.value.tag == tag
    ensures r.None? <==> forall e :: e in es ==> e.tag != tag
  {
    if es == [] then None
    else
      match LastWrite(es[1..], tag)
      case Some(e) => Some(e)
      case None => if es[0].tag == tag then Some(es[0]) else None
  }

  lemma {:induction false} LastWriteIsLast(es: seq<Entry>, e: Entry, later: seq<Entry>)
    requires forall x :: x in later ==> x.tag != e.tag
    ensures LastWrite(es + [e] + later, e.tag) == Some(e)
  {
    if es == [] {
      assert (es + [e] + later)[1..] == later;
    } else {
      assert (es + [e] + later)[1..] == es[1..] + [e] + later;
      LastWriteIsLast(es[1..], e, later);
    }
  }

  /** The value a field has after a payload: its last write, or what it was before. */
  function FieldAfter(es: seq<Entry>, before: Status, tag: bv8): real
    requires KnownTag(tag)
  {
    match LastWrite(es, tag)
    case Some(e) => Meaning(tag, e.hi, e.lo)
    case None => FieldOf(before, tag)
  }

  lemma FieldWritten(s: Status, e: Entry, tag: bv8)
    requires KnownTag(e.tag) && KnownTag(tag)
    ensures FieldOf(WithField(s, e.tag, e.hi, e.lo), tag) ==
            if e.tag == tag then Meaning(tag, e.hi, e.lo) else FieldOf(s, tag)
  {
  }

  lemma {:induction false} UpdatedFields(es: seq<Entry>, s: Status, tag: bv8)
    requires Known(es) && KnownTag(tag)
    ensures FieldOf(Updated(es, s), tag) == FieldAfter(es, s, tag)
    decreases |es|
  {
    hide WithField, FieldOf, Meaning, KnownTag;
    if es != [] {
      FieldWritten(s, es[0], tag);
      UpdatedFields(es[1..], WithField(s, es[0].tag, es[0].hi, es[0].lo), tag);
    }
  }

  /** The value of an entry as a signed word, most significant byte first. */
  function Word(e: Entry): (n: int)
    ensures -0x8000 <= n < 0x8000 && (n - 0x100 * e.hi as int - e.lo as int) % 0x1_0000 == 0
  {
    0x100 * e.hi as int + e.lo as int - if e.hi as int < 0x80 then 0 else 0x1_0000
  }

  /** The field is the entry's value in thousandths, or without an entry what it was. */
  predicate Thousandths(field: real, last: Option<Entry>, before: real) {
    match last
    case None => field == before
    case Some(e) => field * 1000.0 == Word(e) as real
  }

  predicate Hundredths(field: real, last: Option<Entry>, before: real) {
    match last
    case None => field == before
    case Some(e) => field * 100.0 == Word(e) as real
  }

  predicate Plain(field: int, last: Option<Entry>, before: int) {
    match last
    case None => field == before
    case Some(e) => field == 0x100 * e.hi as int + e.lo as int
  }

  /** Which tag is which field in which unit: 0, 2 and 6 are currents in milliamperes, 1, 4 and 5 voltages and 3 the
    * temperature in hundredths, and 7 and 8 plain words. */
  lemma {:induction false} FieldByField(es: seq<Entry>, s: Status)
    requires Known(es)
    ensures var t := Updated(es, s);
      && Thousandths(t.psuAmps, LastWrite(es, 0), s.psuAmps)
      && Hundredths(t.batteryVolts, LastWrite(es, 1), s.batteryVolts)
      && Thousandths(t.batteryOutAmps, LastWrite(es, 2), s.batteryOutAmps)
      && Hundredths(t.temperature, LastWrite(es, 3), s.temperature)
      && Hundredths(t.outputVolts, LastWrite(es, 4), s.outputVolts)
      && Hundredths(t.psuVolts, LastWrite(es, 5), s.psuVolts)
      && Thousandths(t.batteryInAmps, LastWrite(es, 6), s.batteryInAmps)
      && Plain(t.status, LastWrite(es, 7), s.status)
      && Plain(t.switchPosition, LastWrite(es, 8), s.switchPosition)
  {
    hide Updated, LastWrite, Thousandths, Hundredths, Plain, Known;
    RealField(es, s, 0);
    RealField(es, s, 1);
    RealField(es, s, 2);
    RealField(es, s, 3);
    RealField(es, s, 4);
    RealField(es, s, 5);
    RealField(es, s, 6);
    WordField(es, s, 7, Updated(es, s).status, s.status);
    WordField(es, s, 8, Updated(es, s).switchPosition, s.switchPosition);
  }

  lemma RealField(es: seq<Entry>, s: Status, tag: bv8)
    requires Known(es) && tag < 7
    ensures var field, last, before := FieldOf(Updated(es, s), tag), LastWrite(es, tag), FieldOf(s, tag);
      if tag == 0 || tag == 2 || tag == 6 then Thousandths(field, last, before) else Hundredths(field, last, before)
  {
    hide Updated, LastWrite, Scaled, Known, FieldOf, Word, Unsigned;
    UpdatedFields(es, s, tag);
    match LastWrite(es, tag)
    case None =>
    case Some(e) =>
      ScaledEntry(e);
  }

  lemma ScaledEntry(e: Entry)
    ensures Scaled(e.hi, e.lo, 100) * 100.0 == Word(e) as real && Scaled(e.hi, e.lo, 1000) * 1000.0 == Word(e) as real
  {
    hide Scaled;
    ScaledIsWord(e.hi, e.lo);
  }

  lemma WordField(es: seq<Entry>, s: Status, tag: bv8, field: int, before: int)
    requires Known(es) && (tag == 7 || tag == 8)
    requires field as real == FieldOf(Updated(es, s), tag) && before as real == FieldOf(s, tag)
    ensures Plain(field, LastWrite(es, tag), before)
  {
    hide Updated, LastWrite, Known, FieldOf;
    UpdatedFields(es, s, tag);
  }

  lemma ChecksumCloses(body: Bytes)
    ensures Xor(body + [Xor(body)]) == 0
  {
    assert (body + [Xor(body)])[..|body|] == body;
  }

  lemma StatusFrameIsWhole(id0: bv8, id1: bv8, size: bv8, es: seq<Entry>)
    requires size as int == 3 * |es|
    ensures var f := StatusFrame(id0, id1, size, es);
      && FrameShaped(f) && Xor(f) == 0 && f[4] == STATUS_TYPE && OwnId(f) == [id0, id1]
      && f[HEADER_SIZE..|f| - 1] == Payload(es)
  {
    hide Payload, Xor;
    var f := StatusFrame(id0, id1, size, es);
    var body := f[..|f| - 1];
    ChecksumCloses(body);
    assert body + [Xor(body)] == f;
    assert OwnId(f) == [f[2], f[3]];
  }

  /** A well-formed status frame carries its device's id and yields one report, with every field as last written. */
  lemma {:induction false} StatusFrameReports(id0: bv8, id1: bv8, size: bv8, es: seq<Entry>, tag: bv8)
    requires Known(es) && size as int == 3 * |es| && KnownTag(tag)
    ensures var f := StatusFrame(id0, id1, size, es);
      && FrameShaped(f) && OwnId(f) == [id0, id1] && |Sent([f])| == 1 && Sent([f])[0].deviceId == OwnId(f)
      && FieldOf(Sent([f])[0].status, tag) == FieldAfter(es, ZERO_STATUS, tag)
  {
    hide StatusFrame, Parsed, Payload, FieldAfter, FieldOf, Updated, Xor, Known, KnownTag;
    var f := StatusFrame(id0, id1, size, es);
    StatusFrameIsWhole(id0, id1, size, es);
    assert Sent([f]) == FrameReports(f, OwnId(f)) + Sent([]);
    PayloadParses(es, ZERO_STATUS);
    UpdatedFields(es, ZERO_STATUS, tag);
  }

  lemma XorPrefix(bs: Bytes, i: nat)
    requires i < |bs|
    ensures Xor(bs[..0]) == 0 && Xor(bs[..i + 1]) == Xor(bs[..i]) ^ bs[i]
  {
    assert bs[..i + 1][..i] == bs[..i];
  }

  /** A frame as it is on the wire: device 01 02 reports an output voltage of 24.00 V. */
  lemma {:induction false} WireExample()
    ensures var wire: Bytes := [0x55, 0xAA, 0x01, 0x02, 0x03, 0x03, 0x04, 0x09, 0x60, 0x91];
      && Decode(wire) == Decoded([wire], EndOfInput)
      && Sent([wire]) == [Report([0x01, 0x02], ZERO_STATUS.(outputVolts := 24.0))]
  {
    hide Decode, Parsed, Xor;
    var e := Entry(4, 0x09, 0x60);
    var f := StatusFrame(1, 2, 3, [e]);
    WireChecksum();
    assert Payload([e]) == [4, 0x09, 0x60] + Payload([]) == [4, 0x09, 0x60];
    assert [SYNC0, SYNC1, 1, 2, STATUS_TYPE, 3] + Payload([e]) == [0x55, 0xAA, 1, 2, 3, 3, 4, 0x09, 0x60];
    StatusFrameIsWhole(1, 2, 3, [e]);
    assert f == [0x55, 0xAA, 0x01, 0x02, 0x03, 0x03, 0x04, 0x09, 0x60, 0x91];
    PayloadParses([e], ZERO_STATUS);
    assert Updated([e], ZERO_STATUS) == Updated([], WithField(ZERO_STATUS, 4, 0x09, 0x60));
    assert Sent([f]) == FrameReports(f, OwnId(f)) + Sent([]);
    DecodeTakes(f, 10);
    DecodeEnds([]);
    assert f[..10] == f && f[10..] == [];
  }

  lemma WireChecksum()
    ensures Xor([0x55, 0xAA, 0x01, 0x02, 0x03, 0x03, 0x04, 0x09, 0x60]) == 0x91
  {
    hide Xor;
    var body: Bytes := [0x55, 0xAA, 0x01, 0x02, 0x03, 0x03, 0x04, 0x09, 0x60];
    XorPrefix(body, 0);
    XorPrefix(body, 1);
    XorPrefix(body, 2);
    XorPrefix(body, 3);
    XorPrefix(body, 4);
    XorPrefix(body, 5);
    XorPrefix(body, 6);
    XorPrefix(body, 7);
    XorPrefix(body, 8);
    assert body[..9] == body;
  }
}
