/**
 * The submission form (app/submit/page.tsx): its initial state, the six
 * handlers that edit the nested rounds and questions, which of them the page
 * offers, and the verification gate at the start of `handleSubmit`. Each
 * handler is one atomic state transition; store replies are parameters.
 */
module Submit {
  import opened Wrappers
  import opened Seqs
  import opened Text
  import opened Db

  /** The page's `formData`. */
  datatype Form = Form(
    company: string,
    role: string,
    date: string,
    location: string,
    interviewType: string,
    rounds: seq<Round>,
    overallExperience: string,
    tips: string,
    salary: string,
    difficulty: string,
    outcome: string)

  /** The round `addRound` appends as the n-th: named "Round n", no description, one empty question. */
  function NewRound(n: nat): Round
  {
    Round("Round " + NatToString(n), "", [""])
  }

  const InitialForm: Form := Form("", "", "", "", "", [NewRound(1)], "", "", "", "", "")

  /** The form starts with exactly one round, "Round 1", empty description, one empty question. */
  lemma InitialFormShape()
    ensures |InitialForm.rounds| == 1
    ensures InitialForm.rounds[0] == Round("Round 1", "", [""])
    ensures InitialForm.company == "" && InitialForm.role == "" && InitialForm.outcome == ""
  {
    assert NatToString(1) == "1";
  }

  /** `addRound`. */
  function AddRound(f: Form): (r: Form)
    ensures |r.rounds| == |f.rounds| + 1
    ensures r.rounds[..|f.rounds|] == f.rounds
    ensures r.rounds[|f.rounds|] == Round("Round " + NatToString(|f.rounds| + 1), "", [""])
    ensures r == f.(rounds := r.rounds)
  {
    f.(rounds := f.rounds + [NewRound(|f.rounds| + 1)])
  }

  /** `removeRound(index)`: keeps every round whose position is not `index`. */
  function RemoveRound(f: Form, index: int): (r: Form)
    ensures 0 <= index < |f.rounds| ==> r.rounds == f.rounds[..index] + f.rounds[index + 1..]
    ensures !(0 <= index < |f.rounds|) ==> r == f
    ensures r == f.(rounds := r.rounds)
  {
    f.(rounds := RemoveAt(f.rounds, index))
  }

  /** Every round except the one at `index` is the same in both forms. */
  ghost predicate OtherRoundsUnchanged(f: Form, r: Form, index: int)
  {
    |r.rounds| == |f.rounds| && forall j :: 0 <= j < |f.rounds| && j != index ==> r.rounds[j] == f.rounds[j]
  }

  /** `addQuestion(roundIndex)`: one more empty question at the end of that round. */
  function AddQuestion(f: Form, roundIndex: int): (r: Form)
    requires 0 <= roundIndex < |f.rounds|
    ensures OtherRoundsUnchanged(f, r, roundIndex)
    ensures r.rounds[roundIndex].questions == f.rounds[roundIndex].questions + [""]
    ensures r.rounds[roundIndex].roundName == f.rounds[roundIndex].roundName
    ensures r.rounds[roundIndex].description == f.rounds[roundIndex].description
    ensures r == f.(rounds := r.rounds)
  {
    var round := f.rounds[roundIndex];
    f.(rounds := f.rounds[roundIndex := round.(questions := round.questions + [""])])
  }

  /**
   * `removeQuestion(roundIndex, questionIndex)`: drops that question of that
   * round; nothing stops the list from becoming empty.
   */
  function RemoveQuestion(f: Form, roundIndex: int, questionIndex: int): (r: Form)
    requires 0 <= roundIndex < |f.rounds|
    ensures OtherRoundsUnchanged(f, r, roundIndex)
    ensures var qs := f.rounds[roundIndex].questions;
            && (0 <= questionIndex < |qs| ==> r.rounds[roundIndex].questions == qs[..questionIndex] + qs[questionIndex + 1..])
            && (!(0 <= questionIndex < |qs|) ==> r.rounds[roundIndex].questions == qs)
    ensures r.rounds[roundIndex].roundName == f.rounds[roundIndex].roundName
    ensures r.rounds[roundIndex].description == f.rounds[roundIndex].description
    ensures r == f.(rounds := r.rounds)
  {
    var round := f.rounds[roundIndex];
    f.(rounds := f.rounds[roundIndex := round.(questions := RemoveAt(round.questions, questionIndex))])
  }

  /** The two text fields of a round the page edits through `handleRoundChange`. */
  datatype RoundField = RoundName | Description

  /** `handleRoundChange(index, field, value)`. */
  function RoundChange(f: Form, index: int, field: RoundField, value: string): (r: Form)
    requires 0 <= index < |f.rounds|
    ensures OtherRoundsUnchanged(f, r, index)
    ensures field == RoundName ==> r.rounds[index] == f.rounds[index].(roundName := value)
    ensures field == Description ==> r.rounds[index] == f.rounds[index].(description := value)
    ensures r == f.(rounds := r.rounds)
  {
    var round := f.rounds[index];
    var edited := match field
      case RoundName => round.(roundName := value)
      case Description => round.(description := value);
    f.(rounds := f.rounds[index := edited])
  }

  /** `handleQuestionChange(roundIndex, questionIndex, value)`. */
  function QuestionChange(f: Form, roundIndex: int, questionIndex: int, value: string): (r: Form)
    requires 0 <= roundIndex < |f.rounds|
    requires 0 <= questionIndex < |f.rounds[roundIndex].questions|
    ensures OtherRoundsUnchanged(f, r, roundIndex)
    ensures var qs := f.rounds[roundIndex].questions;
            && |r.rounds[roundIndex].questions| == |qs|
            && r.rounds[roundIndex].questions[questionIndex] == value
            && forall k :: 0 <= k < |qs| && k != questionIndex ==> r.rounds[roundIndex].questions[k] == qs[k]
    ensures r.rounds[roundIndex].roundName == f.rounds[roundIndex].roundName
    ensures r.rounds[roundIndex].description == f.rounds[roundIndex].description
    ensures r == f.(rounds := r.rounds)
  {
    var round := f.rounds[roundIndex];
    f.(rounds := f.rounds[roundIndex := round.(questions := round.questions[questionIndex := value])])
  }

  // ----- Inverses -----

  /** Removing the round just added gives the form back. */
  lemma RemoveUndoesAddRound(f: Form)
    ensures RemoveRound(AddRound(f), |f.rounds|) == f
  {
    var g := AddRound(f);
    assert g.rounds[..|f.rounds|] + g.rounds[|f.rounds| + 1..] == f.rounds;
  }

  /** Removing the question just added gives the form back. */
  lemma RemoveUndoesAddQuestion(f: Form, roundIndex: int)
    requires 0 <= roundIndex < |f.rounds|
    ensures var g := AddQuestion(f, roundIndex);
            RemoveQuestion(g, roundIndex, |f.rounds[roundIndex].questions|) == f
  {
    var g := AddQuestion(f, roundIndex);
    var h := RemoveQuestion(g, roundIndex, |f.rounds[roundIndex].questions|);
    var qs := f.rounds[roundIndex].questions;
    assert (qs + [""])[..|qs|] + (qs + [""])[|qs| + 1..] == qs;
    assert h.rounds[roundIndex] == f.rounds[roundIndex];
    assert h.rounds == f.rounds;
  }

  /** Writing a question's old text back leaves the form as it was. */
  lemma QuestionChangeToSameText(f: Form, roundIndex: int, questionIndex: int)
    requires 0 <= roundIndex < |f.rounds|
    requires 0 <= questionIndex < |f.rounds[roundIndex].questions|
    ensures QuestionChange(f, roundIndex, questionIndex, f.rounds[roundIndex].questions[questionIndex]) == f
  {
    var g := QuestionChange(f, roundIndex, questionIndex, f.rounds[roundIndex].questions[questionIndex]);
    assert g.rounds[roundIndex] == f.rounds[roundIndex];
    assert g.rounds == f.rounds;
  }

  // ----- What the page offers -----

  /** A click or keystroke on the page's round editor. */
  datatype Action =
    | AddRoundClick
    | RemoveRoundClick(index: int)
    | AddQuestionClick(roundIndex: int)
    | RemoveQuestionClick(roundIndex: int, questionIndex: int)
    | EditRound(roundIndex: int, field: RoundField, value: string)
    | EditQuestion(roundIndex: int, questionIndex: int, value: string)

  /**
   * The page renders a control for the action: every round and question has
   * its own inputs and buttons, and "Remove Round" is shown only while there is
   * more than one round.
   */
  predicate Offered(f: Form, a: Action)
  {
    match a
    case AddRoundClick => true
    case RemoveRoundClick(i) => |f.rounds| > 1 && 0 <= i < |f.rounds|
    case AddQuestionClick(i) => 0 <= i < |f.rounds|
    case RemoveQuestionClick(i, q) => 0 <= i < |f.rounds| && 0 <= q < |f.rounds[i].questions|
    case EditRound(i, _, _) => 0 <= i < |f.rounds|
    case EditQuestion(i, q, _) => 0 <= i < |f.rounds| && 0 <= q < |f.rounds[i].questions|
  }

  /**
   * One offered action: only the round buttons change the number of rounds,
   * "Remove Round" never removes the last one, and every other control
   * touches only its own round.
   */
  function Step(f: Form, a: Action): (r: Form)
    requires Offered(f, a)
    ensures |r.rounds| == |f.rounds| + (if a.AddRoundClick? then 1 else if a.RemoveRoundClick? then -1 else 0)
    ensures a.RemoveRoundClick? ==> |r.rounds| >= 1
    ensures !a.AddRoundClick? && !a.RemoveRoundClick? ==> OtherRoundsUnchanged(f, r, a.roundIndex)
  {
    match a
    case AddRoundClick => AddRound(f)
    case RemoveRoundClick(i) => RemoveRound(f, i)
    case AddQuestionClick(i) => AddQuestion(f, i)
    case RemoveQuestionClick(i, q) => RemoveQuestion(f, i, q)
    case EditRound(i, field, v) => RoundChange(f, i, field, v)
    case EditQuestion(i, q, v) => QuestionChange(f, i, q, v)
  }

  /** The form after a session of interactions; a control that is not on the page does nothing. */
  function Run(f: Form, actions: seq<Action>): Form
    decreases |actions|
  {
    if |actions| == 0 then f
    else if Offered(f, actions[0]) then Run(Step(f, actions[0]), actions[1..])
    else Run(f, actions[1..])
  }

  lemma StepKeepsARound(f: Form, a: Action)
    requires |f.rounds| >= 1 && Offered(f, a)
    ensures |Step(f, a).rounds| >= 1
  {
  }

  /** Every form the page can reach from its initial state has at least one round. */
  lemma {:induction false} RunKeepsARound(f: Form, actions: seq<Action>)
    requires |f.rounds| >= 1
    ensures |Run(f, actions).rounds| >= 1
    decreases |actions|
  {
    if |actions| > 0 {
      if Offered(f, actions[0]) {
        StepKeepsARound(f, actions[0]);
        RunKeepsARound(Step(f, actions[0]), actions[1..]);
      } else {
        RunKeepsARound(f, actions[1..]);
      }
    }
  }

  lemma ReachableFormsHaveARound(actions: seq<Action>)
    ensures |Run(InitialForm, actions).rounds| >= 1
  {
    RunKeepsARound(InitialForm, actions);
  }

  /** A round's question list can be emptied from the page: one click on the initial form does it. */
  lemma QuestionsCanBecomeEmpty()
    ensures Offered(InitialForm, RemoveQuestionClick(0, 0))
    ensures Step(InitialForm, RemoveQuestionClick(0, 0)).rounds[0].questions == []
  {
  }

  /** After a removal, "Round n" names can repeat: the next added round reuses a number. */
  lemma RoundNamesCanRepeat()
    ensures var f := AddRound(RemoveRound(AddRound(InitialForm), 0));
            |f.rounds| == 2 && f.rounds[0].roundName == f.rounds[1].roundName == "Round 2"
  {
    assert NatToString(2) == "2";
  }

  // ----- handleSubmit -----

  /** The signed-in account as the identity provider reports it. */
  datatype AuthUser = AuthUser(email: string, emailVerified: bool)

  /** A repository call `handleSubmit` makes. */
  datatype DbCall = GetUserByEmail(email: string) | CreateUser(email: string) | CreateExperience(form: Form, userId: string)

  datatype SubmitResult = SubmitResult(alerted: bool, calls: seq<DbCall>, redirect: Option<string>)

  /**
   * `handleSubmit`: without a signed-in, verified user, alert and stop;
   * otherwise look the user up (creating the row when absent) and store the
   * experience for that user, going to the list when the store accepts it.
   * `lookup`, `created` and `stored` are what the repository answers.
   */
  function HandleSubmit(user: Option<AuthUser>, form: Form, lookup: Option<User>, created: Option<User>,
                        stored: Option<Experience>): (r: SubmitResult)
    ensures r.alerted <==> user.None? || !user.value.emailVerified
    ensures r.alerted ==> r.calls == [] && r.redirect == None
    ensures !r.alerted ==> |r.calls| > 0 && r.calls[0] == GetUserByEmail(user.value.email)
    ensures !r.alerted ==> (CreateUser(user.value.email) in r.calls <==> lookup.None?)
    ensures forall form', id :: CreateExperience(form', id) in r.calls ==>
              form' == form && !r.alerted &&
              (if lookup.Some? then id == lookup.value.id else created.Some? && id == created.value.id)
    ensures !r.alerted && (lookup.Some? || created.Some?) ==>
              r.calls[|r.calls| - 1] == CreateExperience(form, if lookup.Some? then lookup.value.id else created.value.id)
    ensures !r.alerted && lookup.Some? ==> r.calls == [GetUserByEmail(user.value.email), CreateExperience(form, lookup.value.id)]
    ensures !r.alerted && lookup.None? && created.Some? ==>
              r.calls == [GetUserByEmail(user.value.email), CreateUser(user.value.email), CreateExperience(form, created.value.id)]
    ensures !r.alerted && lookup.None? && created.None? ==> r.calls == [GetUserByEmail(user.value.email), CreateUser(user.value.email)]
    ensures r.redirect.Some? ==> r.redirect == Some("/experiences") && stored.Some?
    ensures r.redirect.Some? <==> !r.alerted && (lookup.Some? || created.Some?) && stored.Some?
  {
    if user.None? || !user.value.emailVerified then SubmitResult(true, [], None)
    else
      var email := user.value.email;
      var looked := [GetUserByEmail(email)];
      var (dbUser, calls) := if lookup.Some? then (lookup, looked) else (created, looked + [CreateUser(email)]);
      if dbUser.None? then SubmitResult(false, calls, None)
      else
        var redirect := if stored.Some? then Some("/experiences") else None;
        SubmitResult(false, calls + [CreateExperience(form, dbUser.value.id)], redirect)
  }

  /**
   * One submission stores the experience at most once, as its last database
   * call, after at most a lookup and a user creation.
   */
  lemma SubmitStoresAtMostOnce(user: Option<AuthUser>, form: Form, lookup: Option<User>, created: Option<User>,
                               stored: Option<Experience>)
    ensures var r := HandleSubmit(user, form, lookup, created, stored);
      |r.calls| <= 3 &&
      forall i :: 0 <= i < |r.calls| - 1 ==> !r.calls[i].CreateExperience?
  {
  }
}
