/** The interaction loop of a plugin setup: snapshots from the daemon, answers from the terminal. */
module PluginSetup {
  import opened Results
  import opened Sequences

  datatype Choice = Choice(id: string, text: string, description: Option<string>)

  datatype SetupState =
    | Choosing(prompt: string, choices: seq<Choice>)
    | PhysicalAction(instruction: string)
    | Applying
    | Completed(summary: string, revision: nat)
    | Failed(diagnostic: string)
    | Cancelled

  datatype Session = Session(id: string, plugin: string, workflow: string, generation: nat, state: SetupState)

  datatype Response = Chosen(choice: string) | Confirmed

  datatype Request = Respond(session: string, generation: nat, response: Response) | Poll(session: string)

  datatype SetupError =
    | ClientError(message: string)
    | InputEnded
    | ChoiceOutOfRange
    | UnknownChoice
    | InvalidJson
    | NotAnObject
    | MissingChoice
    | ResponseMismatch
    | MissingResponse
    | SetupFailed(diagnostic: string)
    | SetupCancelled

  /** What a line of input decodes to: nothing, some other value, or an object with these string fields. */
  datatype Json = Undecodable | Other | Object(response: Option<string>, choice: Option<string>)

  /** How answers are entered: as JSON or interactively, with the trimming and decoding of lines. */
  datatype Terminal = Terminal(json: bool, trim: string -> string, decode: string -> Json)

  // ----- Reading one answer

  const MAX_NUMBER: nat := 0xffff_ffff_ffff_ffff

  predicate AllDigits(s: string) {
    forall i :: 0 <= i < |s| ==> '0' <= s[i] <= '9'
  }

  function DigitsValue(s: string): nat
    requires AllDigits(s)
  {
    if s == "" then 0 else 10 * DigitsValue(s[..|s| - 1]) + (s[|s| - 1] as int - '0' as int)
  }

  /** An unsigned 64-bit number with an optional plus sign. */
  function ParseNumber(s: string): Option<nat> {
    var digits := if s != "" && s[0] == '+' then s[1..] else s;
    if digits == "" || !AllDigits(digits) then None
    else if DigitsValue(digits) > MAX_NUMBER then None
    else Some(DigitsValue(digits))
  }

  function ReadChoice(value: string, choices: seq<Choice>): Result<Response, SetupError> {
    match ParseNumber(value)
    case Some(number) =>
      if 1 <= number <= |choices| then Ok(Chosen(choices[number - 1].id)) else Err(ChoiceOutOfRange)
    case None =>
      match Find(choices, (c: Choice) => c.id == value)
      case None => Err(UnknownChoice)
      case Some(choice) => Ok(Chosen(choice.id))
  }

  function ReadJson(value: Json, state: SetupState): Result<Response, SetupError> {
    match value
    case Undecodable => Err(InvalidJson)
    case Other => Err(NotAnObject)
    case Object(response, choice) =>
      match response
      case None => Err(MissingResponse)
      case Some(kind) =>
        if kind == "choice" && state.Choosing? then
          if choice.None? then Err(MissingChoice) else Ok(Chosen(choice.value))
        else if kind == "confirmed" && state.PhysicalAction? then Ok(Confirmed)
        else Err(ResponseMismatch)
  }

  /** The state asks for a line of input. */
  predicate Asks(state: SetupState) {
    state.Choosing? || state.PhysicalAction?
  }

  function Answer(terminal: Terminal, state: SetupState, line: string): Result<Response, SetupError>
    requires Asks(state)
  {
    var value := terminal.trim(line);
    if terminal.json then ReadJson(terminal.decode(value), state)
    else if state.Choosing? then ReadChoice(value, state.choices)
    else Ok(Confirmed)
  }

  /** An accepted answer fits the state that asked, and one chosen interactively was on offer. */
  lemma {:induction false} AnswersFit(terminal: Terminal, state: SetupState, line: string)
    requires Asks(state) && Answer(terminal, state, line).Ok?
    ensures var response := Answer(terminal, state, line).value;
            && (response.Chosen? <==> state.Choosing?)
            && (response.Chosen? && !terminal.json ==> exists c :: c in state.choices && c.id == response.choice)
  {
    if state.Choosing? && !terminal.json {
      var value := terminal.trim(line);
      var choices := state.choices;
      if ParseNumber(value).Some? {
        assert choices[ParseNumber(value).value - 1] in choices;
      } else {
        var choice := Find(choices, (c: Choice) => c.id == value).value;
        assert choice in choices;
      }
    }
  }

  /** An interactive choice by its own identifier succeeds unless it reads as a number other than its own. */
  lemma {:induction false} ChoosingByIdExactly(choices: seq<Choice>, id: string)
    requires exists c :: c in choices && c.id == id
    ensures ReadChoice(id, choices) == Ok(Chosen(id)) <==>
            match ParseNumber(id)
            case None => true
            case Some(number) => 1 <= number <= |choices| && choices[number - 1].id == id
  {
    var c :| c in choices && c.id == id;
  }

  /**
   Choices whose identifiers are each other's numbers are swapped, and one that reads as a larger number
   is refused.
   */
  lemma {:induction false} NumericIdsAreShadowed()
    ensures var choices := [Choice("2", "first", None), Choice("1", "second", None), Choice("7", "third", None)];
            && ReadChoice("2", choices) == Ok(Chosen("1"))
            && ReadChoice("1", choices) == Ok(Chosen("2"))
            && ReadChoice("7", choices) == Err(ChoiceOutOfRange)
  {
    ReadDigit("1");
    ReadDigit("2");
    ReadDigit("7");
  }

  lemma {:induction false} ReadDigit(s: string)
    requires |s| == 1 && '0' <= s[0] <= '9'
    ensures ParseNumber(s) == Some(s[0] as int - '0' as int)
  {
    assert AllDigits(s);
    assert DigitsValue(s[..0]) == 0;
    assert DigitsValue(s) == s[0] as int - '0' as int;
  }

  // ----- Numbers as they are written

  const DIGITS := "0123456789"

  /** A number in decimal notation, without leading zeros. */
  function Decimal(n: nat): (s: string)
    ensures s != ""
  {
    if n < 10 then [DIGITS[n]] else Decimal(n / 10) + [DIGITS[n % 10]]
  }

  lemma {:induction false} DigitIs(d: nat)
    requires d < 10
    ensures '0' <= DIGITS[d] <= '9' && DIGITS[d] as int - '0' as int == d
  {
  }

  lemma {:induction false} OneMoreDigit(s: string, d: nat)
    requires AllDigits(s) && d < 10
    ensures AllDigits(s + [DIGITS[d]]) && DigitsValue(s + [DIGITS[d]]) == 10 * DigitsValue(s) + d
  {
    DigitIs(d);
    assert (s + [DIGITS[d]])[..|s|] == s;
  }

  lemma {:induction false} DecimalReadsBack(n: nat)
    ensures AllDigits(Decimal(n)) && DigitsValue(Decimal(n)) == n
  {
    if n < 10 {
      OneMoreDigit("", n);
      assert "" + [DIGITS[n]] == Decimal(n);
    } else {
      DecimalReadsBack(n / 10);
      OneMoreDigit(Decimal(n / 10), n % 10);
    }
  }

  lemma {:induction false} LeadingZero(s: string)
    requires AllDigits(s)
    ensures AllDigits("0" + s) && DigitsValue("0" + s) == DigitsValue(s)
  {
    var t := "0" + s;
    if s == "" {
      assert DigitsValue(t[..0]) == 0;
    } else {
      assert t[..|t| - 1] == "0" + s[..|s| - 1];
      LeadingZero(s[..|s| - 1]);
    }
  }

  /** A number in 64 bits is read as itself, also with a plus sign or a leading zero; a larger one is not a number. */
  lemma {:induction false} NumbersReadBack(n: nat)
    ensures var read := if n <= MAX_NUMBER then Some(n) else None;
            && ParseNumber(Decimal(n)) == read && ParseNumber("0" + Decimal(n)) == read
            && ParseNumber("+" + Decimal(n)) == read
  {
    DecimalReadsBack(n);
    LeadingZero(Decimal(n));
    assert Decimal(n)[0] != '+';
    assert ("+" + Decimal(n))[1..] == Decimal(n);
  }

  /** The number of an offered choice chooses it, and any other number is out of range. */
  lemma {:induction false} ChoosingByNumber(choices: seq<Choice>, k: nat)
    requires k <= MAX_NUMBER
    ensures ReadChoice(Decimal(k), choices) ==
            if 1 <= k <= |choices| then Ok(Chosen(choices[k - 1].id)) else Err(ChoiceOutOfRange)
  {
    NumbersReadBack(k);
  }

  /** A line of JSON is accepted exactly for a choice or a confirmation it states, when that is what was asked. */
  lemma {:induction false} JsonAnswersExactly(terminal: Terminal, state: SetupState, line: string, choice: string)
    requires Asks(state) && terminal.json
    ensures var decoded := terminal.decode(terminal.trim(line));
            && (Answer(terminal, state, line) == Ok(Chosen(choice)) <==>
                state.Choosing? && decoded == Object(Some("choice"), Some(choice)))
            && (Answer(terminal, state, line) == Ok(Confirmed) <==>
                state.PhysicalAction? && decoded.Object? && decoded.response == Some("confirmed"))
  {
    assert "choice"[1] != "confirmed"[1];
  }

  // ----- Whole runs

  /** A run has ended with a result, or is still waiting for the daemon's next reply. */
  datatype Outcome = Finished(result: Result<(), SetupError>) | Waiting

  /** The snapshots received, those printed, the requests sent, the lines read, and how the run stands. */
  datatype Run = Run(snapshots: seq<Session>, output: seq<Session>, requests: seq<Request>, linesRead: nat,
                     outcome: Outcome)

  /** The number of snapshots that ask for a line. */
  function Asking(snapshots: seq<Session>): nat {
    if snapshots == [] then 0
    else Asking(snapshots[..|snapshots| - 1]) + if Asks(snapshots[|snapshots| - 1].state) then 1 else 0
  }

  /** The snapshots that differ from the one before. */
  function Changes(snapshots: seq<Session>): seq<Session> {
    if snapshots == [] then []
    else
      var n := |snapshots| - 1;
      Changes(snapshots[..n]) + if n > 0 && snapshots[n] == snapshots[n - 1] then [] else [snapshots[n]]
  }

  /** The request that answers a snapshot, given the line to be read if it asks for one. */
  ghost predicate Answers(terminal: Terminal, session: Session, lines: seq<string>, next: nat, request: Request) {
    match session.state
    case Applying => request == Poll(session.id)
    case Choosing(_, _) =>
      && next < |lines| && Answer(terminal, session.state, lines[next]).Ok?
      && request == Respond(session.id, session.generation, Answer(terminal, session.state, lines[next]).value)
    case PhysicalAction(_) =>
      && next < |lines| && Answer(terminal, session.state, lines[next]).Ok?
      && request == Respond(session.id, session.generation, Answer(terminal, session.state, lines[next]).value)
    case _ => false
  }

  /** Each request answers the snapshot it follows, with the line whose number is that of earlier questions. */
  ghost predicate AllAnswer(terminal: Terminal, lines: seq<string>, snapshots: seq<Session>, requests: seq<Request>) {
    && |requests| <= |snapshots|
    && forall i :: 0 <= i < |requests| ==> Answers(terminal, snapshots[i], lines, Asking(snapshots[..i]), requests[i])
  }

  /** A run may end with `result` at a snapshot before which `next` lines were read, having read `linesRead`. */
  ghost predicate EndsAt(terminal: Terminal, state: SetupState, lines: seq<string>, next: nat,
                         result: Result<(), SetupError>, linesRead: nat)
  {
    if Asks(state) && next < |lines| then
      // The line was read and refused.
      linesRead == next + 1 && Answer(terminal, state, lines[next]).Err? &&
        result == Err(Answer(terminal, state, lines[next]).error)
    else
      linesRead == next &&
      match state
      case Completed(_, _) => result == Ok(())
      case Failed(diagnostic) => result == Err(SetupFailed(diagnostic))
      case Cancelled => result == Err(SetupCancelled)
      case Applying => false
      case _ => result == Err(InputEnded)
  }

  /** What the end of a run says about it: it waits, the daemon failed to reply, or it ended at its last snapshot. */
  ghost predicate EndsRightly(terminal: Terminal, replies: seq<Result<Session, string>>, lines: seq<string>, run: Run) {
    var n := |run.snapshots|;
    if |run.requests| == n then
      && run.linesRead == Asking(run.snapshots)
      && if n == |replies| then run.outcome == Waiting
         else n < |replies| && replies[n].Err? && run.outcome == Finished(Err(ClientError(replies[n].error)))
    else
      && n == |run.requests| + 1 && run.outcome.Finished?
      && EndsAt(terminal, run.snapshots[n - 1].state, lines, Asking(run.snapshots[..n - 1]), run.outcome.result,
        run.linesRead)
  }

  /** The whole of what a run against an arbitrary daemon guarantees. */
  ghost predicate RunIsRight(terminal: Terminal, replies: seq<Result<Session, string>>, lines: seq<string>, run: Run) {
    && |run.snapshots| <= |replies|
    && (forall i :: 0 <= i < |run.snapshots| ==> replies[i] == Ok(run.snapshots[i]))
    && run.output == Changes(run.snapshots)
    && AllAnswer(terminal, lines, run.snapshots, run.requests)
    && EndsRightly(terminal, replies, lines, run)
  }

  // ----- The loop

  /** What a snapshot leads to: a request, or the end of the run; with the number of lines read by then. */
  datatype Reaction = Send(request: Request, linesRead: nat) | Stop(result: Result<(), SetupError>, linesRead: nat)

  function React(terminal: Terminal, session: Session, lines: seq<string>, next: nat): Reaction
    requires next <= |lines|
  {
    match session.state
    case Applying => Send(Poll(session.id), next)
    case Completed(_, _) => Stop(Ok(()), next)
    case Failed(diagnostic) => Stop(Err(SetupFailed(diagnostic)), next)
    case Cancelled => Stop(Err(SetupCancelled), next)
    case _ =>
      if next == |lines| then Stop(Err(InputEnded), next)
      else
        match Answer(terminal, session.state, lines[next])
        case Err(error) => Stop(Err(error), next + 1)
        case Ok(response) => Send(Respond(session.id, session.generation, response), next + 1)
  }

  /** What holds before each reply of the daemon. */
  ghost predicate InProgress(terminal: Terminal, replies: seq<Result<Session, string>>, lines: seq<string>,
                             snapshots: seq<Session>, requests: seq<Request>, linesRead: nat)
  {
    && |snapshots| == |requests| <= |replies|
    && (forall i :: 0 <= i < |snapshots| ==> replies[i] == Ok(snapshots[i]))
    && AllAnswer(terminal, lines, snapshots, requests)
    && linesRead == Asking(snapshots) <= |lines|
  }

  lemma {:induction false} AskingOneMore(snapshots: seq<Session>, session: Session)
    ensures Asking(snapshots + [session]) == Asking(snapshots) + if Asks(session.state) then 1 else 0
  {
    assert (snapshots + [session])[..|snapshots|] == snapshots;
  }

  lemma {:induction false} Extend(terminal: Terminal, lines: seq<string>, snapshots: seq<Session>,
                                  requests: seq<Request>,
               session: Session, request: Request)
    requires |snapshots| == |requests| && AllAnswer(terminal, lines, snapshots, requests)
    requires Answers(terminal, session, lines, Asking(snapshots), request)
    ensures AllAnswer(terminal, lines, snapshots + [session], requests + [request])
  {
    var more, sent := snapshots + [session], requests + [request];
    forall i | 0 <= i < |sent|
      ensures Answers(terminal, more[i], lines, Asking(more[..i]), sent[i])
    {
      assert more[..i] == snapshots[..i];
      assert i == |snapshots| ==> snapshots[..i] == snapshots;
    }
  }

  lemma {:induction false} ExtendUnanswered(terminal: Terminal, lines: seq<string>, snapshots: seq<Session>,
                                            requests: seq<Request>, session: Session)
    requires |snapshots| == |requests| && AllAnswer(terminal, lines, snapshots, requests)
    ensures AllAnswer(terminal, lines, snapshots + [session], requests)
  {
    forall i | 0 <= i < |requests|
      ensures Answers(terminal, (snapshots + [session])[i], lines, Asking((snapshots + [session])[..i]), requests[i])
    {
      assert (snapshots + [session])[..i] == snapshots[..i];
    }
  }

  /** A snapshot that is answered keeps the run in progress. */
  lemma {:induction false} SendKeepsProgress(terminal: Terminal, replies: seq<Result<Session, string>>,
                                             lines: seq<string>,
                          snapshots: seq<Session>, requests: seq<Request>, linesRead: nat, session: Session)
    requires InProgress(terminal, replies, lines, snapshots, requests, linesRead)
    requires |snapshots| < |replies| && replies[|snapshots|] == Ok(session)
    requires React(terminal, session, lines, linesRead).Send?
    ensures var reaction := React(terminal, session, lines, linesRead);
            InProgress(terminal, replies, lines, snapshots + [session], requests + [reaction.request],
              reaction.linesRead)
  {
    AskingOneMore(snapshots, session);
    Extend(terminal, lines, snapshots, requests, session, React(terminal, session, lines, linesRead).request);
  }

  lemma {:induction false} ReactStopsRightly(terminal: Terminal, session: Session, lines: seq<string>, next: nat)
    requires next <= |lines| && React(terminal, session, lines, next).Stop?
    ensures var reaction := React(terminal, session, lines, next);
            EndsAt(terminal, session.state, lines, next, reaction.result, reaction.linesRead)
  {
  }

  /** A run between a request and its reply is right as it stands, and so is one whose request fails. */
  lemma {:induction false} PausesRightly(terminal: Terminal, replies: seq<Result<Session, string>>, lines: seq<string>,
                      snapshots: seq<Session>, requests: seq<Request>, linesRead: nat)
    requires InProgress(terminal, replies, lines, snapshots, requests, linesRead)
    ensures |snapshots| == |replies| ==>
              RunIsRight(terminal, replies, lines, Run(snapshots, Changes(snapshots), requests, linesRead, Waiting))
    ensures |snapshots| < |replies| && replies[|snapshots|].Err? ==>
              RunIsRight(terminal, replies, lines,
                         Run(snapshots, Changes(snapshots), requests, linesRead,
                             Finished(Err(ClientError(replies[|snapshots|].error)))))
  {
  }

  /** A snapshot that ends the run ends it rightly. */
  lemma {:induction false} StopEndsRightly(terminal: Terminal, replies: seq<Result<Session, string>>,
                                           lines: seq<string>,
                        snapshots: seq<Session>, requests: seq<Request>, linesRead: nat, session: Session, run: Run)
    requires InProgress(terminal, replies, lines, snapshots, requests, linesRead)
    requires |snapshots| < |replies| && replies[|snapshots|] == Ok(session)
    requires run.snapshots == snapshots + [session] && run.output == Changes(run.snapshots) && run.requests == requests
    requires run.outcome.Finished? &&
             EndsAt(terminal, session.state, lines, linesRead, run.outcome.result, run.linesRead)
    ensures RunIsRight(terminal, replies, lines, run)
  {
    ExtendUnanswered(terminal, lines, snapshots, requests, session);
    StopIsLast(terminal, replies, lines, run, snapshots, session, linesRead);
  }

  lemma {:induction false} StopIsLast(terminal: Terminal, replies: seq<Result<Session, string>>, lines: seq<string>,
                                      run: Run,
                   snapshots: seq<Session>, session: Session, next: nat)
    requires next == Asking(snapshots) <= |lines|
    requires run.snapshots == snapshots + [session] && |run.requests| == |snapshots|
    requires run.outcome.Finished? && EndsAt(terminal, session.state, lines, next, run.outcome.result, run.linesRead)
    ensures EndsRightly(terminal, replies, lines, run)
  {
    assert run.snapshots[..|run.snapshots| - 1] == snapshots;
  }

  lemma {:induction false} ChangesOneMore(snapshots: seq<Session>, session: Session)
    ensures Changes(snapshots + [session]) ==
            Changes(snapshots) + if snapshots != [] && snapshots[|snapshots| - 1] == session then [] else [session]
  {
    assert (snapshots + [session])[..|snapshots|] == snapshots;
  }

  /**
   Runs the interaction against the daemon whose successive replies are `replies`. Where these end
   before the interaction does, the run is still waiting, so every prefix of every run is covered.
   */
  method RunSetup(terminal: Terminal, replies: seq<Result<Session, string>>, lines: seq<string>) returns (run: Run)
    ensures RunIsRight(terminal, replies, lines, run)
  {
    var snapshots: seq<Session>, output: seq<Session>, requests: seq<Request>, linesRead := [], [], [], 0;
    var lastOutput: Option<Session> := None;
    while |snapshots| < |replies|
      invariant InProgress(terminal, replies, lines, snapshots, requests, linesRead)
      invariant output == Changes(snapshots)
      invariant lastOutput == if snapshots == [] then None else Some(snapshots[|snapshots| - 1])
      decreases |replies| - |snapshots|
    {
      var reply := replies[|snapshots|];
      if reply.Err? {
        PausesRightly(terminal, replies, lines, snapshots, requests, linesRead);
        return Run(snapshots, output, requests, linesRead, Finished(Err(ClientError(reply.error))));
      }
      var session := reply.value;
      ChangesOneMore(snapshots, session);
      if lastOutput != Some(session) {
        output := output + [session];
        lastOutput := Some(session);
      }
      var reaction := React(terminal, session, lines, linesRead);
      match reaction {
        case Stop(result, read) =>
          run := Run(snapshots + [session], output, requests, read, Finished(result));
          ReactStopsRightly(terminal, session, lines, linesRead);
          StopEndsRightly(terminal, replies, lines, snapshots, requests, linesRead, session, run);
          return;
        case Send(request, read) =>
          SendKeepsProgress(terminal, replies, lines, snapshots, requests, linesRead, session);
          snapshots, requests, linesRead := snapshots + [session], requests + [request], read;
      }
    }
    PausesRightly(terminal, replies, lines, snapshots, requests, linesRead);
    return Run(snapshots, output, requests, linesRead, Waiting);
  }

  // ----- What follows from a right run

  /**
   Every response carries the identity and generation of the snapshot it answers and fits its state;
   an interactive choice was on offer; polling happens only while settings are being applied.
   */
  lemma {:induction false} RequestsFollowSnapshots(terminal: Terminal, replies: seq<Result<Session, string>>,
                                                   lines: seq<string>, run: Run, i: nat)
    requires RunIsRight(terminal, replies, lines, run) && i < |run.requests|
    ensures var session, request := run.snapshots[i], run.requests[i];
            && request.session == session.id
            && (request.Poll? <==> session.state.Applying?)
            && (request.Respond? ==>
                  && request.generation == session.generation
                  && (request.response.Chosen? <==> session.state.Choosing?)
                  && (request.response.Confirmed? <==> session.state.PhysicalAction?)
                  && (request.response.Chosen? && !terminal.json ==>
                        exists c :: c in session.state.choices && c.id == request.response.choice))
  {
    var session := run.snapshots[i];
    assert Answers(terminal, session, lines, Asking(run.snapshots[..i]), run.requests[i]);
    if Asks(session.state) {
      AnswersFit(terminal, session.state, lines[Asking(run.snapshots[..i])]);
    }
  }

  function Responses(requests: seq<Request>): nat {
    if requests == [] then 0
    else Responses(requests[..|requests| - 1]) + if requests[|requests| - 1].Respond? then 1 else 0
  }

  /**
   Each response uses exactly one line: as many lines are read as responses sent, and one more exactly
   when the run ended because the answer in the last line was refused.
   */
  lemma {:induction false} OneLinePerResponse(terminal: Terminal, replies: seq<Result<Session, string>>,
                                              lines: seq<string>, run: Run)
    requires RunIsRight(terminal, replies, lines, run)
    ensures var refused := |run.snapshots| > |run.requests| &&
                           Asks(run.snapshots[|run.requests|].state) && Responses(run.requests) < |lines|;
            run.linesRead == Responses(run.requests) + if refused then 1 else 0
  {
    var n := |run.requests|;
    AskingIsResponding(terminal, lines, run.snapshots, run.requests, n);
    assert run.requests[..n] == run.requests;
    assert n == |run.snapshots| ==> run.snapshots[..n] == run.snapshots;
  }

  lemma {:induction false} AskingIsResponding(terminal: Terminal, lines: seq<string>, snapshots: seq<Session>,
                                              requests: seq<Request>, upTo: nat)
    requires AllAnswer(terminal, lines, snapshots, requests) && upTo <= |requests|
    ensures Asking(snapshots[..upTo]) == Responses(requests[..upTo])
  {
    if upTo > 0 {
      AskingIsResponding(terminal, lines, snapshots, requests, upTo - 1);
      assert snapshots[..upTo][..upTo - 1] == snapshots[..upTo - 1];
      assert requests[..upTo][..upTo - 1] == requests[..upTo - 1];
      assert Answers(terminal, snapshots[upTo - 1], lines, Asking(snapshots[..upTo - 1]), requests[upTo - 1]);
    }
  }

  /** A run succeeds exactly when its last snapshot is a completed one, and no earlier snapshot is final. */
  lemma {:induction false} SuccessIsCompletion(terminal: Terminal, replies: seq<Result<Session, string>>,
                                               lines: seq<string>, run: Run)
    requires RunIsRight(terminal, replies, lines, run)
    ensures run.outcome == Finished(Ok(())) <==>
            run.snapshots != [] && run.snapshots[|run.snapshots| - 1].state.Completed?
    ensures forall i :: 0 <= i < |run.snapshots| - 1 ==>
            Asks(run.snapshots[i].state) || run.snapshots[i].state.Applying?
  {
    forall i | 0 <= i < |run.requests|
      ensures Asks(run.snapshots[i].state) || run.snapshots[i].state.Applying?
    {
      assert Answers(terminal, run.snapshots[i], lines, Asking(run.snapshots[..i]), run.requests[i]);
    }
    var n := |run.snapshots|;
    if n > 0 && run.outcome.Finished? {
      var last := run.snapshots[n - 1].state;
      assert |run.requests| == n ==> !last.Completed?;
    }
  }

  /** What is printed never repeats itself at once, and ends with the latest snapshot. */
  lemma {:induction false} ChangesCollapse(snapshots: seq<Session>)
    ensures forall k :: 0 < k < |Changes(snapshots)| ==> Changes(snapshots)[k] != Changes(snapshots)[k - 1]
    ensures snapshots != [] ==>
              Changes(snapshots) != [] && Changes(snapshots)[|Changes(snapshots)| - 1] == snapshots[|snapshots| - 1]
    ensures forall s :: s in Changes(snapshots) <==> s in snapshots
  {
    if snapshots != [] {
      var n := |snapshots| - 1;
      ChangesCollapse(snapshots[..n]);
      assert snapshots == snapshots[..n] + [snapshots[n]];
    }
  }
}
