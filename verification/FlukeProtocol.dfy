/** The request discipline of the Fluke 45 protocol object (workshop/lab/fluke.py): the coroutines `_run` and `ask`
    interleaved with incoming data, as a state machine over their uninterrupted steps. */
module FlukeProtocol {
  import opened Options
  import opened FlukeFraming

  const INTERRUPT := "\U{0003}"
  const FORMAT := "FORMAT 2\n"

  datatype Connection = Disconnected | Connecting | Ready

  /** Whose future it is: one of the two set-up requests, or the request of user number `id`. */
  datatype Owner = SetUpInterrupt | SetUpFormat | User(id: nat)

  datatype Entry = Wrote(owner: Owner, bytes: string) | Prompted(response: string)

  /** Where `_run` stands. */
  datatype SetUp = Idle | WantsInterrupt | AwaitsInterrupt | WantsFormat | AwaitsFormat | Finished | Failed

  /** Where one call of `ask` stands: waiting to be ready, for the turn, for its future, or returned. */
  datatype Phase = AwaitsReady | WantsTurn | AwaitsAnswer | Returned(answer: Answer)

  datatype Asker = Asker(command: string, phase: Phase)

  datatype State = State(connection: Connection, setUp: SetUp, askers: seq<Asker>, buffer: string,
                         pending: Option<Owner>, resolved: map<Owner, Answer>, log: seq<Entry>)

  const START := State(Disconnected, Idle, [], "", None, map[], [])

  datatype Action = ConnectionMade | RunSetUp | Ask(command: string) | RunAsker(id: nat) | Data(chunk: string)

  predicate Succeeded(a: Answer): (ok: bool)
    ensures ok <==> a != CommandError && a != ExecutionError && a != FormatError
  {
    a.Value? || a.Done?
  }

  /** Taking the turn in `_ask`: only without a pending future; creates the future and writes. */
  function Issue(s: State, owner: Owner, bytes: string): State {
    s.(pending := Some(owner), log := s.log + [Wrote(owner, bytes)])
  }

  /** One response: it resolves the pending future, if there is one. */
  function Respond(s: State, response: string): State {
    var t := s.(log := s.log + [Prompted(response)]);
    match s.pending
    case None => t
    case Some(owner) => t.(pending := None, resolved := s.resolved[owner := Classify(response)])
  }

  function RespondAll(s: State, responses: seq<string>): State
    decreases |responses|
  {
    if responses == [] then s else RespondAll(Respond(s, responses[0]), responses[1..])
  }

  /** `_run` up to its next suspension. */
  function StepSetUp(s: State): State {
    match s.setUp
    case Idle => s
    case WantsInterrupt =>
      if s.pending.Some? then s else Issue(s, SetUpInterrupt, INTERRUPT).(setUp := AwaitsInterrupt)
    case AwaitsInterrupt =>
      if SetUpInterrupt !in s.resolved then s
      else s.(setUp := if Succeeded(s.resolved[SetUpInterrupt]) then WantsFormat else Failed)
    case WantsFormat =>
      if s.pending.Some? then s else Issue(s, SetUpFormat, FORMAT).(setUp := AwaitsFormat)
    case AwaitsFormat =>
      if SetUpFormat !in s.resolved then s
      else if Succeeded(s.resolved[SetUpFormat]) then s.(setUp := Finished, connection := Ready)
      else s.(setUp := Failed)
    case Finished => s
    case Failed => s
  }

  /** One `ask` up to its next suspension. */
  function StepAsker(s: State, id: nat): State
    requires id < |s.askers|
  {
    var a := s.askers[id];
    match a.phase
    case AwaitsReady =>
      if s.connection.Ready? then s.(askers := s.askers[id := a.(phase := WantsTurn)]) else s
    case WantsTurn =>
      if s.pending.Some? then s
      else Issue(s, User(id), a.command + "\n").(askers := s.askers[id := a.(phase := AwaitsAnswer)])
    case AwaitsAnswer =>
      if User(id) in s.resolved then s.(askers := s.askers[id := a.(phase := Returned(s.resolved[User(id)]))]) else s
    case Returned(_) => s
  }

  function Step(s: State, action: Action): State {
    match action
    case ConnectionMade =>
      if s.setUp.Idle? then s.(connection := Connecting, setUp := WantsInterrupt) else s
    case RunSetUp => StepSetUp(s)
    case Ask(command) => s.(askers := s.askers + [Asker(command, AwaitsReady)])
    case RunAsker(id) => if id < |s.askers| then StepAsker(s, id) else s
    case Data(chunk) =>
      var f := Frame(s.buffer + chunk);
      RespondAll(s, f.responses).(buffer := f.residual)
  }

  function Run(actions: seq<Action>): State {
    if actions == [] then START else Step(Run(actions[..|actions| - 1]), actions[|actions| - 1])
  }

  // ----- what the log says by itself -----

  /** The request written last and not yet followed by a prompt. */
  function Outstanding(log: seq<Entry>): Option<Owner> {
    if log == [] then None
    else
      match log[|log| - 1]
      case Wrote(owner, _) => Some(owner)
      case Prompted(_) => None
  }

  /** For every request, the first response after it. */
  function Answers(log: seq<Entry>): map<Owner, Answer> {
    if log == [] then map[]
    else
      var before := log[..|log| - 1];
      match log[|log| - 1]
      case Wrote(_, _) => Answers(before)
      case Prompted(response) =>
        match Outstanding(before)
        case None => Answers(before)
        case Some(owner) => Answers(before)[owner := Classify(response)]
  }

  predicate WrittenIn(log: seq<Entry>, owner: Owner) {
    exists i :: 0 <= i < |log| && log[i].Wrote? && log[i].owner == owner
  }

  /** Nothing is written while a request is outstanding. */
  ghost predicate OneOutstanding(log: seq<Entry>) {
    forall i :: 0 <= i < |log| && log[i].Wrote? ==> Outstanding(log[..i]).None?
  }

  ghost predicate WrittenOnce(log: seq<Entry>) {
    forall i, j :: 0 <= i < j < |log| && log[i].Wrote? && log[j].Wrote? ==> log[i].owner != log[j].owner
  }

  predicate SetUpAnswered(answers: map<Owner, Answer>) {
    SetUpInterrupt in answers && SetUpFormat in answers &&
    Succeeded(answers[SetUpInterrupt]) && Succeeded(answers[SetUpFormat])
  }

  /** No user command is written before both set-up requests have been answered. */
  ghost predicate SetUpFirst(log: seq<Entry>) {
    forall i :: 0 <= i < |log| && log[i].Wrote? && log[i].owner.User? ==> SetUpAnswered(Answers(log[..i]))
  }

  ghost predicate BytesRight(log: seq<Entry>, askers: seq<Asker>) {
    forall i :: 0 <= i < |log| && log[i].Wrote? ==>
      log[i].bytes == match log[i].owner
        case SetUpInterrupt => INTERRUPT
        case SetUpFormat => FORMAT
        case User(id) => if id < |askers| then askers[id].command + "\n" else ""
  }

  // ----- the invariant -----

  predicate SetUpPhaseOk(s: State) {
    && (s.setUp.Idle? || s.setUp.WantsInterrupt? ==> !WrittenIn(s.log, SetUpInterrupt))
    && (s.setUp.Idle? || s.setUp.WantsInterrupt? || s.setUp.AwaitsInterrupt? || s.setUp.WantsFormat? ==>
          !WrittenIn(s.log, SetUpFormat))
    && (s.setUp.WantsFormat? || s.setUp.AwaitsFormat? || s.setUp.Finished? ==>
          SetUpInterrupt in s.resolved && Succeeded(s.resolved[SetUpInterrupt]))
    && (s.setUp.Finished? ==> SetUpAnswered(s.resolved))
    && (s.connection.Ready? <==> s.setUp.Finished?)
    && (s.setUp.AwaitsInterrupt? ==> WrittenIn(s.log, SetUpInterrupt))
    && (s.setUp.AwaitsFormat? ==> WrittenIn(s.log, SetUpFormat))
    && (s.setUp.Failed? ==> !SetUpHealthy(s))
  }

  /** No set-up request has been answered by an error. */
  predicate SetUpHealthy(s: State) {
    && (SetUpInterrupt in s.resolved ==> Succeeded(s.resolved[SetUpInterrupt]))
    && (SetUpFormat in s.resolved ==> Succeeded(s.resolved[SetUpFormat]))
  }

  ghost predicate AskersOk(s: State) {
    && (forall id: nat :: id < |s.askers| ==>
          match s.askers[id].phase
          case AwaitsReady => !WrittenIn(s.log, User(id))
          case WantsTurn => s.connection.Ready? && !WrittenIn(s.log, User(id))
          case AwaitsAnswer => s.connection.Ready? && WrittenIn(s.log, User(id))
          case Returned(answer) => User(id) in s.resolved && s.resolved[User(id)] == answer)
    && (forall id: nat :: id >= |s.askers| ==> !WrittenIn(s.log, User(id)))
  }

  ghost predicate Inv(s: State) {
    && s.pending == Outstanding(s.log) && s.resolved == Answers(s.log)
    && OneOutstanding(s.log) && WrittenOnce(s.log) && SetUpFirst(s.log) && BytesRight(s.log, s.askers)
    && SetUpPhaseOk(s) && AskersOk(s)
  }

  lemma LogAppend(log: seq<Entry>, e: Entry)
    ensures Outstanding(log + [e]) == if e.Wrote? then Some(e.owner) else None
    ensures Answers(log + [e]) ==
      if e.Prompted? && Outstanding(log).Some? then Answers(log)[Outstanding(log).value := Classify(e.response)]
      else Answers(log)
    ensures forall o :: WrittenIn(log + [e], o) <==> WrittenIn(log, o) || (e.Wrote? && e.owner == o)
  {
    var log' := log + [e];
    assert log'[..|log|] == log;
    forall o ensures WrittenIn(log', o) <==> WrittenIn(log, o) || (e.Wrote? && e.owner == o) {
      if i :| 0 <= i < |log| && log[i].Wrote? && log[i].owner == o {
        assert log'[i] == log[i];
      } else if e.Wrote? && e.owner == o {
        assert log'[|log|] == e;
      }
    }
  }

  lemma PrefixOfAppend(log: seq<Entry>, e: Entry)
    ensures forall i :: 0 <= i <= |log| ==> (log + [e])[..i] == log[..i]
    ensures forall i :: 0 <= i < |log| ==> (log + [e])[i] == log[i]
  {
  }

  lemma {:induction false} OutstandingIsWritten(log: seq<Entry>)
    requires Outstanding(log).Some?
    ensures WrittenIn(log, Outstanding(log).value)
  {
    assert log[|log| - 1].Wrote?;
  }

  lemma {:induction false} AnsweredIsWritten(log: seq<Entry>, o: Owner)
    requires o in Answers(log)
    ensures WrittenIn(log, o)
  {
    var before, e := log[..|log| - 1], log[|log| - 1];
    assert log == before + [e];
    LogAppend(before, e);
    if e.Prompted? && Outstanding(before) == Some(o) {
      OutstandingIsWritten(before);
    } else {
      AnsweredIsWritten(before, o);
    }
  }

  /** A request that is still outstanding has no answer yet, so an answer is never replaced. */
  lemma OutstandingUnanswered(log: seq<Entry>)
    requires WrittenOnce(log) && Outstanding(log).Some?
    ensures Outstanding(log).value !in Answers(log)
  {
    var o, before, e := Outstanding(log).value, log[..|log| - 1], log[|log| - 1];
    assert log == before + [e];
    LogAppend(before, e);
    if o in Answers(before) {
      AnsweredIsWritten(before, o);
    }
  }

  /** The clauses of the invariant that only look at the log survive a permitted write. */
  lemma LogIssue(log: seq<Entry>, askers: seq<Asker>, owner: Owner, bytes: string)
    requires OneOutstanding(log) && WrittenOnce(log) && SetUpFirst(log) && BytesRight(log, askers)
    requires Outstanding(log).None? && !WrittenIn(log, owner) && (owner.User? ==> SetUpAnswered(Answers(log)))
    requires bytes == match owner
      case SetUpInterrupt => INTERRUPT
      case SetUpFormat => FORMAT
      case User(id) => if id < |askers| then askers[id].command + "\n" else ""
    ensures var log' := log + [Wrote(owner, bytes)];
      OneOutstanding(log') && WrittenOnce(log') && SetUpFirst(log') && BytesRight(log', askers)
  {
    hide Outstanding, Answers, SetUpAnswered;
    PrefixOfAppend(log, Wrote(owner, bytes));
  }

  lemma LogRespond(log: seq<Entry>, askers: seq<Asker>, response: string)
    requires OneOutstanding(log) && WrittenOnce(log) && SetUpFirst(log) && BytesRight(log, askers)
    ensures var log' := log + [Prompted(response)];
      OneOutstanding(log') && WrittenOnce(log') && SetUpFirst(log') && BytesRight(log', askers)
  {
    hide Outstanding, Answers, SetUpAnswered;
    PrefixOfAppend(log, Prompted(response));
  }

  /** No resolved future changes or is forgotten. */
  ghost predicate KeepsAnswers(s: State, s': State) {
    forall o :: o in s.resolved ==> o in s'.resolved && s'.resolved[o] == s.resolved[o]
  }

  lemma RespondKeepsInv(s: State, response: string)
    requires Inv(s)
    ensures Inv(Respond(s, response))
    ensures KeepsAnswers(s, Respond(s, response))
  {
    hide Outstanding, Answers, OneOutstanding, WrittenOnce, SetUpFirst, BytesRight, WrittenIn, Classify;
    LogRespond(s.log, s.askers, response);
    LogAppend(s.log, Prompted(response));
    if s.pending.Some? {
      OutstandingUnanswered(s.log);
    }
  }

  lemma {:induction false} RespondAllKeepsInv(s: State, responses: seq<string>)
    requires Inv(s)
    ensures Inv(RespondAll(s, responses))
    ensures KeepsAnswers(s, RespondAll(s, responses))
    decreases |responses|
  {
    hide Inv, Respond;
    if responses != [] {
      RespondKeepsInv(s, responses[0]);
      RespondAllKeepsInv(Respond(s, responses[0]), responses[1..]);
    }
  }

  lemma IssueKeepsLog(s: State, owner: Owner, bytes: string)
    requires Inv(s) && s.pending.None?
    requires !WrittenIn(s.log, owner) && (owner.User? ==> SetUpAnswered(s.resolved))
    requires bytes == match owner
      case SetUpInterrupt => INTERRUPT
      case SetUpFormat => FORMAT
      case User(id) => if id < |s.askers| then s.askers[id].command + "\n" else ""
    ensures var s' := Issue(s, owner, bytes);
      && s'.pending == Outstanding(s'.log) && s'.resolved == Answers(s'.log)
      && OneOutstanding(s'.log) && WrittenOnce(s'.log) && SetUpFirst(s'.log) && BytesRight(s'.log, s'.askers)
      && forall o :: WrittenIn(s'.log, o) <==> WrittenIn(s.log, o) || o == owner
  {
    hide Outstanding, Answers, OneOutstanding, WrittenOnce, SetUpFirst, BytesRight, WrittenIn, SetUpAnswered;
    LogIssue(s.log, s.askers, owner, bytes);
    LogAppend(s.log, Wrote(owner, bytes));
  }

  lemma StepSetUpKeepsInv(s: State)
    requires Inv(s)
    ensures Inv(StepSetUp(s)) && StepSetUp(s).resolved == s.resolved
  {
    hide Outstanding, Answers, OneOutstanding, WrittenOnce, SetUpFirst, BytesRight, WrittenIn;
    if s.pending.None? && s.setUp.WantsInterrupt? {
      IssueKeepsLog(s, SetUpInterrupt, INTERRUPT);
    } else if s.pending.None? && s.setUp.WantsFormat? {
      IssueKeepsLog(s, SetUpFormat, FORMAT);
    }
  }

  lemma StepAskerKeepsInv(s: State, id: nat)
    requires Inv(s) && id < |s.askers|
    ensures Inv(StepAsker(s, id)) && StepAsker(s, id).resolved == s.resolved
  {
    hide Outstanding, Answers, OneOutstanding, WrittenOnce, SetUpFirst, WrittenIn, SetUpAnswered;
    if s.pending.None? && s.askers[id].phase.WantsTurn? {
      IssueKeepsLog(s, User(id), s.askers[id].command + "\n");
    }
  }

  lemma AskKeepsInv(s: State, command: string)
    requires Inv(s)
    ensures Inv(Step(s, Ask(command)))
  {
    hide Outstanding, Answers, OneOutstanding, WrittenOnce, SetUpFirst, SetUpAnswered;
    var n := |s.askers|;
    assert !WrittenIn(s.log, User(n));
  }

  lemma StepKeepsInv(s: State, action: Action)
    requires Inv(s)
    ensures Inv(Step(s, action))
    ensures KeepsAnswers(s, Step(s, action))
  {
    hide Outstanding, Answers, OneOutstanding, WrittenOnce, SetUpFirst, BytesRight, WrittenIn;
    hide StepSetUp, StepAsker, RespondAll, Frame;
    match action
    case ConnectionMade =>
    case RunSetUp => StepSetUpKeepsInv(s);
    case Ask(command) => AskKeepsInv(s, command);
    case RunAsker(id) => if id < |s.askers| { StepAskerKeepsInv(s, id); }
    case Data(chunk) => RespondAllKeepsInv(s, Frame(s.buffer + chunk).responses);
  }

  lemma StartInv()
    ensures Inv(START)
  {
  }

  lemma {:induction false} RunKeepsInv(actions: seq<Action>)
    ensures Inv(Run(actions))
  {
    hide Inv, Step;
    if actions == [] {
      StartInv();
    } else {
      RunKeepsInv(actions[..|actions| - 1]);
      StepKeepsInv(Run(actions[..|actions| - 1]), actions[|actions| - 1]);
    }
  }

  lemma {:induction false} AnswersStay(log: seq<Entry>, n: nat, o: Owner)
    requires WrittenOnce(log) && n <= |log| && o in Answers(log[..n])
    ensures o in Answers(log) && Answers(log)[o] == Answers(log[..n])[o]
  {
    if n == |log| {
      assert log[..n] == log;
    } else {
      var before, e := log[..|log| - 1], log[|log| - 1];
      assert log == before + [e] && before[..n] == log[..n];
      AnswersStay(before, n, o);
      LogAppend(before, e);
      if Outstanding(before).Some? {
        OutstandingUnanswered(before);
      }
    }
  }

  /** What follows a write in the log is a prompt, and that prompt is the answer; without one there is no answer. */
  lemma {:induction false} NextEntryAnswers(log: seq<Entry>, i: nat)
    requires OneOutstanding(log) && WrittenOnce(log) && i < |log| && log[i].Wrote?
    ensures i + 1 < |log| ==>
      log[i + 1].Prompted? && log[i].owner in Answers(log) &&
      Answers(log)[log[i].owner] == Classify(log[i + 1].response)
    ensures i + 1 == |log| ==> log[i].owner !in Answers(log)
  {
    var upTo := log[..i + 1];
    assert upTo == log[..i] + [log[i]];
    LogAppend(log[..i], log[i]);
    if i + 1 == |log| {
      assert upTo == log;
      OutstandingUnanswered(log);
    } else {
      assert log[..i + 2] == upTo + [log[i + 1]];
      LogAppend(upTo, log[i + 1]);
      AnswersStay(log, i + 2, log[i].owner);
    }
  }

  /** The write at position `i` is the outstanding one, or the next entry is the prompt that answered it. */
  predicate AnsweredNext(s: State, i: nat)
    requires i < |s.log| && s.log[i].Wrote?
  {
    var o := s.log[i].owner;
    if i + 1 < |s.log| then
      s.log[i + 1].Prompted? && o in s.resolved && s.resolved[o] == Classify(s.log[i + 1].response)
    else o !in s.resolved && s.pending == Some(o)
  }

  /** Request discipline, over every interleaving: one outstanding request at most, each answered by the very next
      prompt, and users served only after ^C and FORMAT 2 have been answered. */
  lemma {:induction false} RequestDiscipline(actions: seq<Action>)
    ensures var s := Run(actions);
      && OneOutstanding(s.log) && WrittenOnce(s.log) && SetUpFirst(s.log) && BytesRight(s.log, s.askers)
      && forall i :: 0 <= i < |s.log| && s.log[i].Wrote? ==> AnsweredNext(s, i)
  {
    hide SetUpPhaseOk, AskersOk;
    var s := Run(actions);
    RunKeepsInv(actions);
    forall i | 0 <= i < |s.log| && s.log[i].Wrote? ensures AnsweredNext(s, i) {
      NextEntryAnswers(s.log, i);
    }
  }

  /** What `ask` returns is the response that followed its own command. */
  lemma {:induction false} ReturnedAnswerIsOwn(actions: seq<Action>, id: nat)
    requires id < |Run(actions).askers| && Run(actions).askers[id].phase.Returned?
    ensures var s := Run(actions);
      exists i :: 0 <= i < |s.log| - 1 &&
        s.log[i] == Wrote(User(id), s.askers[id].command + "\n") && s.log[i + 1].Prompted? &&
        s.askers[id].phase.answer == Classify(s.log[i + 1].response)
  {
    var s := Run(actions);
    RunKeepsInv(actions);
    AnsweredIsWritten(s.log, User(id));
    var i :| 0 <= i < |s.log| && s.log[i].Wrote? && s.log[i].owner == User(id);
    NextEntryAnswers(s.log, i);
    assert s.log[i] == Wrote(User(id), s.askers[id].command + "\n");
  }

  /** A future, once resolved, keeps its result for the rest of the run. */
  lemma {:induction false} ResolvedOnce(actions: seq<Action>, n: nat, o: Owner)
    requires n <= |actions| && o in Run(actions[..n]).resolved
    ensures o in Run(actions).resolved && Run(actions).resolved[o] == Run(actions[..n]).resolved[o]
  {
    hide Inv, Step;
    if n == |actions| {
      assert actions[..n] == actions;
    } else {
      var before := actions[..|actions| - 1];
      assert before[..n] == actions[..n];
      ResolvedOnce(before, n, o);
      RunKeepsInv(before);
      StepKeepsInv(Run(before), actions[|actions| - 1]);
    }
  }

  function Prompts(log: seq<Entry>): seq<string> {
    if log == [] then []
    else
      Prompts(log[..|log| - 1]) +
      match log[|log| - 1]
      case Wrote(_, _) => []
      case Prompted(response) => [response]
  }

  function Input(actions: seq<Action>): string {
    if actions == [] then ""
    else
      Input(actions[..|actions| - 1]) +
      match actions[|actions| - 1]
      case Data(chunk) => chunk
      case _ => ""
  }

  lemma PromptsAppend(log: seq<Entry>, e: Entry)
    ensures Prompts(log + [e]) == Prompts(log) + if e.Prompted? then [e.response] else []
  {
    assert (log + [e])[..|log|] == log;
  }

  lemma {:induction false} RespondAllPrompts(s: State, responses: seq<string>)
    ensures Prompts(RespondAll(s, responses).log) == Prompts(s.log) + responses
    ensures RespondAll(s, responses).buffer == s.buffer
    decreases |responses|
  {
    if responses != [] {
      RespondAllPrompts(Respond(s, responses[0]), responses[1..]);
      PromptsAppend(s.log, Prompted(responses[0]));
    }
  }

  lemma QuietStep(s: State, action: Action)
    requires !action.Data?
    ensures Prompts(Step(s, action).log) == Prompts(s.log) && Step(s, action).buffer == s.buffer
  {
    hide Prompts, StepSetUp, StepAsker;
    match action
    case RunSetUp => QuietSetUp(s);
    case RunAsker(id) => if id < |s.askers| { QuietAsker(s, id); }
    case _ =>
  }

  lemma QuietSetUp(s: State)
    ensures Prompts(StepSetUp(s).log) == Prompts(s.log) && StepSetUp(s).buffer == s.buffer
  {
    hide Prompts, Succeeded;
    PromptsAppend(s.log, Wrote(SetUpInterrupt, INTERRUPT));
    PromptsAppend(s.log, Wrote(SetUpFormat, FORMAT));
  }

  lemma QuietAsker(s: State, id: nat)
    requires id < |s.askers|
    ensures Prompts(StepAsker(s, id).log) == Prompts(s.log) && StepAsker(s, id).buffer == s.buffer
  {
    hide Prompts;
    PromptsAppend(s.log, Wrote(User(id), s.askers[id].command + "\n"));
  }

  /** However input is split and whatever runs in between, the responses seen are those of the whole stream. */
  lemma {:induction false} PromptsAreTheStream(actions: seq<Action>)
    ensures Frame(Input(actions)) == Framed(Prompts(Run(actions).log), Run(actions).buffer)
  {
    hide Find, Frame, Step, RespondAll;
    if actions == [] {
      EmptyStream();
    } else {
      var front, last := actions[..|actions| - 1], actions[|actions| - 1];
      var s := Run(front);
      PromptsAreTheStream(front);
      if last.Data? {
        FrameAppend(Input(front), last.chunk);
        RespondAllPrompts(s, Frame(s.buffer + last.chunk).responses);
        DataStep(s, last.chunk);
      } else {
        QuietStep(s, last);
        assert Input(actions) == Input(front);
      }
    }
  }

  lemma {:induction false} RespondAllIgnoresBuffer(s: State, responses: seq<string>, buffer: string)
    ensures RespondAll(s.(buffer := buffer), responses) == RespondAll(s, responses).(buffer := buffer)
    decreases |responses|
  {
    if responses != [] {
      RespondAllIgnoresBuffer(Respond(s, responses[0]), responses[1..], buffer);
    }
  }

  lemma EmptyStream()
    ensures Frame("") == Framed([], "")
  {
  }

  lemma DataStep(s: State, chunk: string)
    ensures Step(s, Data(chunk)).log == RespondAll(s, Frame(s.buffer + chunk).responses).log
    ensures Step(s, Data(chunk)).buffer == Frame(s.buffer + chunk).residual
  {
  }

  /** The protocol object; its fields are those the source's methods and coroutines assign, with the write and
      response log beside them. */
  class Fluke45Protocol {
    var connection: Connection
    var setUp: SetUp
    var askers: seq<Asker>
    var buffer: string
    var pendingResponse: Option<Owner>
    var resolved: map<Owner, Answer>
    var log: seq<Entry>

    ghost function View(): State
      reads this
    {
      State(connection, setUp, askers, buffer, pendingResponse, resolved, log)
    }

    constructor ()
      ensures View() == START
    {
      connection, setUp, askers, buffer := Disconnected, Idle, [], "";
      pendingResponse, resolved, log := None, map[], [];
    }

    method ConnectionMade()
      modifies this
      ensures View() == Step(old(View()), Action.ConnectionMade)
      ensures old(setUp).Idle? ==> View() == old(View()).(connection := Connecting, setUp := WantsInterrupt)
    {
      if setUp.Idle? {
        connection := Connecting;
        setUp := WantsInterrupt;
      }
    }

    /** The uninterruptible part of `_ask` that takes the turn. */
    method TakeTurn(owner: Owner, command: string)
      requires pendingResponse.None?
      modifies this`pendingResponse, this`log
      ensures View() == Issue(old(View()), owner, command)
    {
      pendingResponse := Some(owner);
      log := log + [Wrote(owner, command)];
    }

    method RunSetUp()
      modifies this
      ensures View() == Step(old(View()), Action.RunSetUp)
    {
      match setUp
      case WantsInterrupt =>
        if pendingResponse.None? {
          TakeTurn(SetUpInterrupt, INTERRUPT);
          setUp := AwaitsInterrupt;
        }
      case AwaitsInterrupt =>
        if SetUpInterrupt in resolved {
          setUp := if Succeeded(resolved[SetUpInterrupt]) then WantsFormat else Failed;
        }
      case WantsFormat =>
        if pendingResponse.None? {
          TakeTurn(SetUpFormat, FORMAT);
          setUp := AwaitsFormat;
        }
      case AwaitsFormat =>
        if SetUpFormat in resolved {
          if Succeeded(resolved[SetUpFormat]) {
            setUp, connection := Finished, Ready;
          } else {
            setUp := Failed;
          }
        }
      case _ =>
    }

    method Ask(command: string) returns (id: nat)
      modifies this`askers
      ensures View() == Step(old(View()), Action.Ask(command)) && id == |old(askers)|
      ensures askers == old(askers) + [Asker(command, AwaitsReady)]
    {
      id := |askers|;
      askers := askers + [Asker(command, AwaitsReady)];
    }

    method RunAsker(id: nat)
      requires id < |askers|
      modifies this
      ensures View() == Step(old(View()), Action.RunAsker(id))
    {
      var a := askers[id];
      match a.phase
      case AwaitsReady =>
        if connection.Ready? {
          askers := askers[id := a.(phase := WantsTurn)];
        }
      case WantsTurn =>
        if pendingResponse.None? {
          TakeTurn(User(id), a.command + "\n");
          askers := askers[id := a.(phase := AwaitsAnswer)];
        }
      case AwaitsAnswer =>
        if User(id) in resolved {
          askers := askers[id := a.(phase := Returned(resolved[User(id)]))];
        }
      case Returned(_) =>
    }

    /** `data_received`. */
    method DataReceived(data: string)
      modifies this`buffer, this`log, this`pendingResponse, this`resolved
      ensures View() == Step(old(View()), Data(data))
    {
      hide Find, OccursAt, Classify, Frame;
      ghost var s0, f0 := View(), Frame(buffer + data);
      buffer := buffer + data;
      RespondAllIgnoresBuffer(s0, f0.responses, buffer);
      while true
        invariant RespondAll(View(), Frame(buffer).responses).(buffer := Frame(buffer).residual) ==
                  RespondAll(s0, f0.responses).(buffer := f0.residual)
        decreases |buffer|
      {
        ghost var s1 := View();
        var i := Find(buffer, PROMPT);
        if i.None? {
          NoPromptYet(buffer);
          return;
        }
        FrameStep(buffer, i.value);
        var response := buffer[..i.value];
        buffer := buffer[i.value + |PROMPT|..];
        log := log + [Prompted(response)];
        if pendingResponse.Some? {
          resolved := resolved[pendingResponse.value := Classify(response)];
          pendingResponse := None;
        }
        assert View() == Respond(s1, response).(buffer := buffer);
        RespondAllIgnoresBuffer(Respond(s1, response), Frame(buffer).responses, buffer);
      }
    }
  }
}
