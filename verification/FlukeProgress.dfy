/** That the Fluke 45 protocol object gets on: what each step does when nothing holds it up, and that from every reachable
    state a device that answers can bring every caller of `ask` its answer. */
module FlukeProgress {
  import opened Options
  import opened FlukeFraming
  import opened FlukeProtocol

  /** The set-up writes ^C, waits, writes FORMAT 2, waits, and is ready; an error ends it. Each write waits for its turn. */
  lemma SetUpProceeds(s: State)
    ensures var t := StepSetUp(s);
      match s.setUp
      case WantsInterrupt =>
        if s.pending.Some? then t == s
        else t == s.(setUp := AwaitsInterrupt, pending := Some(SetUpInterrupt),
                     log := s.log + [Wrote(SetUpInterrupt, "\U{0003}")])
      case WantsFormat =>
        if s.pending.Some? then t == s
        else t == s.(setUp := AwaitsFormat, pending := Some(SetUpFormat),
                     log := s.log + [Wrote(SetUpFormat, "FORMAT 2\n")])
      case AwaitsInterrupt =>
        if SetUpInterrupt !in s.resolved then t == s
        else t == s.(setUp := if Succeeded(s.resolved[SetUpInterrupt]) then WantsFormat else Failed)
      case AwaitsFormat =>
        if SetUpFormat !in s.resolved then t == s
        else if Succeeded(s.resolved[SetUpFormat]) then t == s.(setUp := Finished, connection := Ready)
        else t == s.(setUp := Failed)
      case _ => t == s
  {
  }

  /** A caller goes on as soon as the object is ready, the turn is free, or its answer is there, and not before. */
  lemma AskerProceeds(s: State, id: nat)
    requires id < |s.askers|
    ensures var t, a := StepAsker(s, id), s.askers[id];
      match a.phase
      case AwaitsReady =>
        if s.connection.Ready? then t == s.(askers := s.askers[id := a.(phase := WantsTurn)]) else t == s
      case WantsTurn =>
        if s.pending.Some? then t == s
        else t == s.(askers := s.askers[id := a.(phase := AwaitsAnswer)], pending := Some(User(id)),
                     log := s.log + [Wrote(User(id), a.command + "\n")])
      case AwaitsAnswer =>
        if User(id) in s.resolved
        then t == s.(askers := s.askers[id := a.(phase := Returned(s.resolved[User(id)]))]) else t == s
      case Returned(_) => t == s
  {
  }

  /** A successful reply that no residue can be confused with. */
  const REPLY := "ok\r\n=>\r\n"

  lemma ReplyIsFramed(residual: string)
    requires Find(residual, PROMPT).None?
    ensures Frame(residual + REPLY) == Framed([residual + "ok\r\n="], "")
  {
    var s := residual + REPLY;
    var n := |residual| + 5;
    assert s[n..n + 3] == PROMPT;
    forall j: nat | j < n ensures !OccursAt(s, PROMPT, j) {
      NotEarlier(residual, j);
    }
    FirstOccurrence(s, PROMPT, n);
    FrameStep(s, n);
    assert s[..n] == residual + "ok\r\n=" && s[n + |PROMPT|..] == "";
    EmptyStream();
  }

  lemma PromptCharacters(s: string, j: nat)
    requires OccursAt(s, PROMPT, j)
    ensures j + 3 <= |s| && s[j] == '>' && s[j + 1] == '\r' && s[j + 2] == '\n'
  {
    var d := s[j..j + 3];
    assert d[0] == '>' && d[1] == '\r' && d[2] == '\n';
  }

  lemma NotEarlier(residual: string, j: nat)
    requires Find(residual, PROMPT).None? && j < |residual| + 5
    ensures !OccursAt(residual + REPLY, PROMPT, j)
  {
    hide Find, OccursAt;
    var s := residual + REPLY;
    if OccursAt(s, PROMPT, j) {
      PromptCharacters(s, j);
      InResidual(residual, j);
    }
  }

  lemma InResidual(residual: string, j: nat)
    ensures j + 3 <= |residual| ==> OccursAt(residual + REPLY, PROMPT, j) == OccursAt(residual, PROMPT, j)
    ensures |residual| - 3 < j < |residual| ==>
      (residual + REPLY)[|residual|] == 'o' && (|residual| == j + 1 || |residual| == j + 2)
    ensures |residual| <= j < |residual| + 5 ==> (residual + REPLY)[j] != '>'
  {
    if j + 3 <= |residual| {
      assert (residual + REPLY)[j..j + 3] == residual[j..j + 3];
    }
    if |residual| <= j < |residual| + 5 {
      assert (residual + REPLY)[j] == REPLY[j - |residual|];
    }
  }

  lemma ReplySucceeds(residual: string)
    ensures Succeeded(Classify(residual + "ok\r\n="))
  {
    NoNewline("=");
    LinesEnd(residual + "ok", "=");
    assert residual + "ok" + NEWLINE + "=" == residual + "ok\r\n=";
  }

  lemma NoNewline(s: string)
    requires |s| < 2
    ensures Find(s, NEWLINE).None?
  {
  }

  /** A buffered residue never contains a prompt. */
  lemma NoPromptBuffered(actions: seq<Action>)
    ensures Find(Run(actions).buffer, PROMPT).None?
  {
    hide Find, Frame, Run, Prompts, Input;
    PromptsAreTheStream(actions);
    FramingIsFaithful(Input(actions));
  }

  lemma RunOneMore(actions: seq<Action>, a: Action)
    ensures Run(actions + [a]) == Step(Run(actions), a)
  {
    assert (actions + [a])[..|actions|] == actions;
  }

  /** A reply frees the turn with a success, and touches nothing else but the log. */
  lemma ReplyFreesTurn(s: State)
    requires Find(s.buffer, PROMPT).None? && s.pending.Some?
    ensures var t := Step(s, Data(REPLY));
      && t.pending.None? && t.setUp == s.setUp && t.connection == s.connection && t.askers == s.askers
      && Succeeded(Classify(s.buffer + "ok\r\n="))
      && t.resolved == s.resolved[s.pending.value := Classify(s.buffer + "ok\r\n=")]
  {
    hide Find, Frame, Classify, Succeeded;
    ReplyIsFramed(s.buffer);
    ReplySucceeds(s.buffer);
    var r := s.buffer + "ok\r\n=";
    assert RespondAll(s, [r]) == RespondAll(Respond(s, r), [r][1..]) == Respond(s, r);
  }

  /** With the turn free, every written request has been answered. */
  lemma WrittenIsAnswered(s: State, o: Owner)
    requires Inv(s) && s.pending.None? && WrittenIn(s.log, o)
    ensures o in s.resolved
  {
    hide Answers, BytesRight, SetUpFirst, SetUpPhaseOk, AskersOk;
    var i :| 0 <= i < |s.log| && s.log[i].Wrote? && s.log[i].owner == o;
    NextEntryAnswers(s.log, i);
    assert i + 1 == |s.log| ==> Outstanding(s.log) == Some(o);
  }

  function SetUpLeft(p: SetUp): nat {
    match p
    case WantsInterrupt => 4
    case AwaitsInterrupt => 3
    case WantsFormat => 2
    case AwaitsFormat => 1
    case _ => 0
  }

  function AskerLeft(p: Phase): nat {
    match p
    case AwaitsReady => 3
    case WantsTurn => 2
    case AwaitsAnswer => 1
    case Returned(_) => 0
  }

  /** How many steps and replies a caller still needs. */
  function Left(s: State, id: nat): nat
    requires id < |s.askers|
  {
    2 * SetUpLeft(s.setUp) + 2 * AskerLeft(s.askers[id].phase) + if s.pending.Some? then 1 else 0
  }

  /** What helps next: a reply if one is outstanding, else the set-up, else the caller itself. */
  function Helpful(s: State, id: nat): Action {
    if s.pending.Some? then Data(REPLY)
    else if s.setUp.Finished? then RunAsker(id)
    else RunSetUp
  }

  ghost predicate Going(s: State, id: nat) {
    Inv(s) && id < |s.askers| && !s.setUp.Idle? && SetUpHealthy(s) && Find(s.buffer, PROMPT).None?
  }

  lemma HelpfulHelps(s: State, id: nat)
    requires Going(s, id) && !s.askers[id].phase.Returned?
    ensures var t := Step(s, Helpful(s, id));
      && |t.askers| == |s.askers| && !t.setUp.Idle? && SetUpHealthy(t) && Left(t, id) < Left(s, id)
      && t.askers[id].command == s.askers[id].command
  {
    hide Find, Frame, OneOutstanding, WrittenOnce, SetUpFirst, BytesRight, WrittenIn, Answers, Outstanding, RespondAll;
    if s.pending.Some? {
      hide Succeeded;
      ReplyFreesTurn(s);
    } else if s.setUp.Finished? {
      if s.askers[id].phase.AwaitsAnswer? {
        WrittenIsAnswered(s, User(id));
      }
    } else {
      if s.setUp.AwaitsInterrupt? {
        WrittenIsAnswered(s, SetUpInterrupt);
      } else if s.setUp.AwaitsFormat? {
        WrittenIsAnswered(s, SetUpFormat);
      }
    }
  }

  /** Nobody is stuck: once the connection is made, and as long as neither set-up request has been answered by an error,
      every caller can be brought its answer by replies, by the set-up and by its own steps alone. */
  lemma {:induction false} EveryoneCanBeAnswered(actions: seq<Action>, id: nat) returns (more: seq<Action>)
    requires id < |Run(actions).askers| && !Run(actions).setUp.Idle? && SetUpHealthy(Run(actions))
    ensures forall a :: a in more ==> a == Data("ok\r\n=>\r\n") || a == RunSetUp || a == RunAsker(id)
    ensures |more| <= Left(Run(actions), id)
    ensures id < |Run(actions + more).askers| && Run(actions + more).askers[id].phase.Returned?
    decreases Left(Run(actions), id)
  {
    hide Run, Inv, Find, Step, Left, SetUpHealthy;
    var s := Run(actions);
    if s.askers[id].phase.Returned? {
      more := [];
      assert actions + more == actions;
    } else {
      var a := Helpful(s, id);
      RunKeepsInv(actions);
      NoPromptBuffered(actions);
      HelpfulHelps(s, id);
      RunOneMore(actions, a);
      var rest := EveryoneCanBeAnswered(actions + [a], id);
      more := [a] + rest;
      assert actions + more == actions + [a] + rest;
    }
  }
}
