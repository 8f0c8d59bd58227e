/** Splitting the meter's byte stream into responses (workshop/lab/fluke.py `data_received`). Bytes are characters. */
module FlukeFraming {
  import opened Options

  const PROMPT := ">\r\n"
  const NEWLINE := "\r\n"

  predicate OccursAt(s: string, d: string, i: nat) {
    i + |d| <= |s| && s[i..i + |d|] == d
  }

  /** The first occurrence of a delimiter. */
  function Find(s: string, d: string): (r: Option<nat>)
    requires d != []
    ensures r.Some? ==> r.value + |d| <= |s|
    ensures r.Some? ==> OccursAt(s, d, r.value) && forall j: nat :: j < r.value ==> !OccursAt(s, d, j)
    ensures r.None? ==> forall j: nat :: !OccursAt(s, d, j)
  {
    if |s| < |d| then None
    else if s[..|d|] == d then Some(0)
    else
      var r := Find(s[1..], d);
      assert forall j: nat :: j >= 1 ==> OccursAt(s, d, j) == OccursAt(s[1..], d, j - 1) by {
        forall j: nat | j >= 1 ensures OccursAt(s, d, j) == OccursAt(s[1..], d, j - 1) {
          OccursInTail(s, d, j);
        }
      }
      match r
      case Some(i) => Some(i + 1)
      case None => None
  }

  lemma OccursInTail(s: string, d: string, j: nat)
    requires j >= 1 && s != []
    ensures OccursAt(s, d, j) == OccursAt(s[1..], d, j - 1)
  {
    if j + |d| <= |s| {
      assert s[1..][j - 1..j - 1 + |d|] == s[j..j + |d|];
    }
  }

  datatype Framed = Framed(responses: seq<string>, residual: string)

  /** The responses in a stream, each up to its prompt, and what is left after the last prompt. */
  function Frame(s: string): Framed
    decreases |s|
  {
    match Find(s, PROMPT)
    case None => Framed([], s)
    case Some(i) =>
      var f := Frame(s[i + |PROMPT|..]);
      Framed([s[..i]] + f.responses, f.residual)
  }

  lemma FirstOccurrence(s: string, d: string, i: nat)
    requires d != [] && OccursAt(s, d, i) && forall j: nat :: j < i ==> !OccursAt(s, d, j)
    ensures Find(s, d) == Some(i)
  {
  }

  /** More input does not move the first delimiter. */
  lemma FindAppend(a: string, b: string, d: string)
    requires d != [] && Find(a, d).Some?
    ensures Find(a + b, d) == Find(a, d)
  {
    var i := Find(a, d).value;
    forall j: nat | j <= i ensures OccursAt(a + b, d, j) == OccursAt(a, d, j) {
      assert (a + b)[j..j + |d|] == a[j..j + |d|];
    }
    FirstOccurrence(a + b, d, i);
  }

  lemma FrameStep(s: string, i: nat)
    requires Find(s, PROMPT) == Some(i)
    ensures var f := Frame(s[i + |PROMPT|..]);
      Frame(s) == Framed([s[..i]] + f.responses, f.residual)
  {
  }

  lemma NoPromptYet(s: string)
    requires Find(s, PROMPT).None?
    ensures Frame(s) == Framed([], s)
  {
  }

  /** Framing can stop anywhere and go on from the residue. */
  lemma {:induction false} FrameAppend(a: string, b: string)
    ensures var fa := Frame(a);
      var fb := Frame(fa.residual + b);
      Frame(a + b) == Framed(fa.responses + fb.responses, fb.residual)
    decreases |a|
  {
    hide Find, OccursAt, Frame;
    if Find(a, PROMPT).Some? {
      var i := Find(a, PROMPT).value;
      var rest := a[i + |PROMPT|..];
      FindAppend(a, b, PROMPT);
      FrameStep(a, i);
      FrameStep(a + b, i);
      assert (a + b)[i + |PROMPT|..] == rest + b && (a + b)[..i] == a[..i];
      FrameAppend(rest, b);
      assert [a[..i]] + (Frame(rest).responses + Frame(Frame(rest).residual + b).responses) ==
             ([a[..i]] + Frame(rest).responses) + Frame(Frame(rest).residual + b).responses;
    } else {
      NoPromptYet(a);
    }
  }

  function Concat(chunks: seq<string>): string {
    if chunks == [] then "" else Concat(chunks[..|chunks| - 1]) + chunks[|chunks| - 1]
  }

  /** What one protocol object has emitted and still buffers after receiving chunks one at a time. */
  function Received(chunks: seq<string>): Framed {
    if chunks == [] then Framed([], "")
    else
      var before := Received(chunks[..|chunks| - 1]);
      var f := Frame(before.residual + chunks[|chunks| - 1]);
      Framed(before.responses + f.responses, f.residual)
  }

  /** Chunk independence: the way input is split never matters. */
  lemma {:induction false} ChunkIndependence(chunks: seq<string>)
    ensures Received(chunks) == Frame(Concat(chunks))
  {
    if chunks == [] {
      assert Find("", PROMPT).None?;
    } else {
      ChunkIndependence(chunks[..|chunks| - 1]);
      FrameAppend(Concat(chunks[..|chunks| - 1]), chunks[|chunks| - 1]);
    }
  }

  lemma {:induction false} SameStreamSameResponses(chunks: seq<string>, chunks': seq<string>)
    requires Concat(chunks) == Concat(chunks')
    ensures Received(chunks) == Received(chunks')
  {
    ChunkIndependence(chunks);
    ChunkIndependence(chunks');
  }

  /** The stream a device sends: every response closed by a prompt, then an unfinished one. */
  function Joined(responses: seq<string>, residual: string): string {
    if responses == [] then residual else responses[0] + (PROMPT + Joined(responses[1..], residual))
  }

  /** Responses whose prompt is the first delimiter in them. */
  ghost predicate Terminated(responses: seq<string>) {
    forall r :: r in responses ==> Find(r + PROMPT, PROMPT) == Some(|r|)
  }

  /** Framing loses nothing, and leaves neither a response nor a residue with a delimiter inside. */
  lemma {:induction false} FramingIsFaithful(s: string)
    ensures var f := Frame(s);
      Joined(f.responses, f.residual) == s && Terminated(f.responses) && Find(f.residual, PROMPT).None?
    decreases |s|
  {
    hide Find, OccursAt, Frame;
    if Find(s, PROMPT).Some? {
      var i := Find(s, PROMPT).value;
      var rest := s[i + |PROMPT|..];
      FrameStep(s, i);
      FramingIsFaithful(rest);
      FoundText(s, i);
      ShortestFind(s, i);
    } else {
      NoPromptYet(s);
    }
  }

  lemma FoundText(s: string, i: nat)
    requires Find(s, PROMPT) == Some(i)
    ensures s == s[..i] + (PROMPT + s[i + |PROMPT|..])
  {
  }

  lemma ShortestFind(s: string, i: nat)
    requires Find(s, PROMPT) == Some(i)
    ensures Find(s[..i] + PROMPT, PROMPT) == Some(i)
  {
    var t := s[..i] + PROMPT;
    assert t == s[..i + |PROMPT|];
    forall j: nat | j < i ensures !OccursAt(t, PROMPT, j) {
      assert !OccursAt(s, PROMPT, j);
      assert t[j..j + |PROMPT|] == s[j..j + |PROMPT|];
    }
    assert OccursAt(t, PROMPT, i);
    FirstOccurrence(t, PROMPT, i);
  }

  /** And it recovers exactly the responses a stream was made of. */
  lemma {:induction false} FramingInverts(responses: seq<string>, residual: string)
    requires Terminated(responses) && Find(residual, PROMPT).None?
    ensures Frame(Joined(responses, residual)) == Framed(responses, residual)
  {
    hide Find, OccursAt;
    if responses != [] {
      var r, rest := responses[0], Joined(responses[1..], residual);
      var s := Joined(responses, residual);
      assert s == (r + PROMPT) + rest;
      FindAppend(r + PROMPT, rest, PROMPT);
      assert s[..|r|] == r && s[|r| + |PROMPT|..] == rest;
      FramingInverts(responses[1..], residual);
    }
  }

  /** `split`: the lines of a response. */
  function Lines(s: string): (ls: seq<string>)
    ensures ls != []
    decreases |s|
  {
    match Find(s, NEWLINE)
    case None => [s]
    case Some(i) => [s[..i]] + Lines(s[i + |NEWLINE|..])
  }

  datatype Answer = Value(line: string) | Done | CommandError | ExecutionError | FormatError

  /** How a response is told apart by its prompt character. */
  function Classify(response: string): Answer {
    var lines := Lines(response);
    var last := lines[|lines| - 1];
    if last == "?" then CommandError
    else if last == "!" then ExecutionError
    else if last == "=" then (if |lines| > 1 then Value(lines[0]) else Done)
    else FormatError
  }

  /** Lines with newlines between them. */
  function JoinedLines(lines: seq<string>): string {
    if lines == [] then "" else if |lines| == 1 then lines[0]
    else lines[0] + (NEWLINE + JoinedLines(lines[1..]))
  }

  /** Lines whose newline is the first one in them, and a last line without any. */
  ghost predicate WholeLines(lines: seq<string>) {
    && lines != [] && Find(lines[|lines| - 1], NEWLINE).None?
    && forall i :: 0 <= i < |lines| - 1 ==> Find(lines[i] + NEWLINE, NEWLINE) == Some(|lines[i]|)
  }

  /** Splitting recovers the lines a response was made of. */
  lemma {:induction false} LinesInvert(lines: seq<string>)
    requires WholeLines(lines)
    ensures Lines(JoinedLines(lines)) == lines
  {
    hide Find, OccursAt;
    if |lines| > 1 {
      var first, rest := lines[0], JoinedLines(lines[1..]);
      var s := JoinedLines(lines);
      assert s == (first + NEWLINE) + rest;
      FindAppend(first + NEWLINE, rest, NEWLINE);
      assert s[..|first|] == first && s[|first| + |NEWLINE|..] == rest;
      LinesInvert(lines[1..]);
    }
  }

  /** A response is told by its last line: "?" and "!" are the two errors, "=" is success with the first line as the
    * value, or without a value when it is the only line, and anything else is not understood. */
  lemma {:induction false} ClassifiesLines(lines: seq<string>)
    requires WholeLines(lines)
    ensures var answer, last := Classify(JoinedLines(lines)), lines[|lines| - 1];
      && (last == "?" ==> answer == CommandError) && (last == "!" ==> answer == ExecutionError)
      && (last == "=" && |lines| == 1 ==> answer == Done) && (last == "=" && |lines| > 1 ==> answer == Value(lines[0]))
      && (last != "?" && last != "!" && last != "=" ==> answer == FormatError)
  {
    hide Lines, JoinedLines, WholeLines;
    LinesInvert(lines);
  }

  lemma {:induction false} LinesEnd(a: string, last: string)
    requires Find(last, NEWLINE).None?
    ensures var lines := Lines(a + NEWLINE + last);
      |lines| > 1 && lines[|lines| - 1] == last
    decreases |a|
  {
    hide Find, OccursAt;
    var s := a + NEWLINE + last;
    NewlineFound(a, last);
    var i := Find(s, NEWLINE).value;
    if i == |a| {
      assert s[i + |NEWLINE|..] == last;
    } else {
      assert s[i + |NEWLINE|..] == a[i + |NEWLINE|..] + NEWLINE + last;
      LinesEnd(a[i + |NEWLINE|..], last);
    }
  }

  lemma NewlineFound(a: string, last: string)
    ensures var r := Find(a + NEWLINE + last, NEWLINE);
      r.Some? && (r.value == |a| || r.value + 2 <= |a|)
  {
    var s := a + NEWLINE + last;
    assert s[|a|..|a| + 2] == NEWLINE;
    assert OccursAt(s, NEWLINE, |a|);
    var i := Find(s, NEWLINE).value;
    assert s[i..i + 2][1] == s[i + 1] == '\n' && s[|a|] == '\r';
  }

  /** A reply line followed by a prompt line is understood as that reply. */
  lemma {:induction false} ClassifiesReply(reply: string, prompt: string)
    requires Find(reply + NEWLINE, NEWLINE) == Some(|reply|) && Find(prompt, NEWLINE).None?
    ensures Classify(reply + NEWLINE + prompt) ==
      if prompt == "?" then CommandError else if prompt == "!" then ExecutionError
      else if prompt == "=" then Value(reply) else FormatError
  {
    var s := reply + NEWLINE + prompt;
    FindAppend(reply + NEWLINE, prompt, NEWLINE);
    assert s[..|reply|] == reply && s[|reply| + |NEWLINE|..] == prompt;
    assert Lines(s) == [reply] + Lines(prompt) == [reply, prompt];
  }
}
