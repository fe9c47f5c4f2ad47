/**
 * The like button of the detail dialog (app/components/ExperienceDetail.tsx):
 * an `isLiking` flag held for the duration of its own `likeExperience` call,
 * and forwarding of a non-null result to the list's `handleLike`, which the
 * list passes in as `onLike`.
 */
module ExperienceDetail {
  import opened Wrappers
  import opened Db
  import List = ExperienceList

  datatype DetailState = DetailState(isLiking: bool)

  /** `disabled={isLiking}`. */
  predicate LikeDisabled(d: DetailState)
  {
    d.isLiking
  }

  /** `setIsLiking(true)`, the state while the call is awaited. */
  function StartLike(d: DetailState): (r: DetailState)
    ensures LikeDisabled(r)
  {
    d.(isLiking := true)
  }

  /**
   * The page after one dialog click: the dialog's flag, the list's state, the
   * number of `likeExperience` calls made in total, the arguments `onLike`
   * received (if it was called), and whether the click's promise rejected.
   */
  datatype ClickResult = ClickResult(
    detail: DetailState,
    list: List.ListState,
    calls: nat,
    forwarded: Option<(int, int)>,
    threw: bool)

  /**
   * The rest of `handleLike` once the dialog's own call has produced
   * `outcome`: forward a non-null count to the list (whose own call produces
   * `listOutcome`), then clear the flag in `finally`, also when the call threw.
   */
  function FinishLike(d: DetailState, exp: Experience, list: List.ListState,
                      outcome: List.CallOutcome, listOutcome: List.CallOutcome): (r: ClickResult)
    ensures !LikeDisabled(r.detail)
    ensures r.forwarded.Some? <==> List.Succeeded(outcome)
    ensures r.forwarded.Some? ==> r.forwarded.value == (exp.id, outcome.value.value)
    ensures r.threw <==> outcome.Threw?
    ensures !List.Succeeded(outcome) ==> r.list == list && r.calls == 1
    ensures List.Succeeded(outcome) ==> r.calls == 1 + List.HandleLike(list, exp.id, listOutcome).calls
    ensures List.Succeeded(outcome) ==> r.list == List.HandleLike(list, exp.id, listOutcome).state
  {
    var done := d.(isLiking := false);
    match outcome
    case Threw => ClickResult(done, list, 1, None, true)
    case Returned(None) => ClickResult(done, list, 1, None, false)
    case Returned(Some(n)) =>
      var step := List.HandleLike(list, exp.id, listOutcome);
      ClickResult(done, step.state, 1 + step.calls, Some((exp.id, n)), false)
  }

  /**
   * `handleLike` of the dialog as one transition: the dialog's own call, then
   * the list's `handleLike` on a returned count, and the flag cleared at the end.
   */
  function HandleLike(d: DetailState, exp: Experience, list: List.ListState,
                      outcome: List.CallOutcome, listOutcome: List.CallOutcome): (r: ClickResult)
    ensures !LikeDisabled(r.detail)
    ensures 1 <= r.calls <= 2
    ensures r.calls == 2 <==> List.Succeeded(outcome) && exp.id !in list.liked
    ensures r.forwarded.Some? <==> List.Succeeded(outcome)
    ensures List.Succeeded(outcome) && List.Succeeded(listOutcome) ==> exp.id in r.list.liked
    ensures !List.Succeeded(outcome) ==> r.list == list
  {
    FinishLike(StartLike(d), exp, list, outcome, listOutcome)
  }

  /**
   * The flag is set while the call is awaited and cleared afterwards, whether
   * the call returned a count, returned null or threw.
   */
  lemma FlagHeldOnlyDuringCall(d: DetailState, exp: Experience, list: List.ListState,
                               outcome: List.CallOutcome, listOutcome: List.CallOutcome)
    ensures LikeDisabled(StartLike(d))
    ensures !LikeDisabled(HandleLike(d, exp, list, outcome, listOutcome).detail)
  {
  }

  /** The dialog is not gated by the liked list: every click makes its own call. */
  lemma DialogClickAlwaysCalls(d: DetailState, exp: Experience, list: List.ListState,
                               outcome: List.CallOutcome, listOutcome: List.CallOutcome)
    ensures HandleLike(d, exp, list, outcome, listOutcome).calls >= 1
  {
  }

  /** On an experience not yet liked in the list, a successful dialog click sends two increments. */
  lemma DoubleIncrementWhenNotLiked(d: DetailState, exp: Experience, list: List.ListState,
                                    n: int, listOutcome: List.CallOutcome)
    requires exp.id !in list.liked
    ensures HandleLike(d, exp, list, List.Returned(Some(n)), listOutcome).calls == 2
  {
  }

  /** On an experience already liked in the list, a dialog click sends one increment. */
  lemma SingleIncrementWhenLiked(d: DetailState, exp: Experience, list: List.ListState,
                                 outcome: List.CallOutcome, listOutcome: List.CallOutcome)
    requires exp.id in list.liked
    ensures HandleLike(d, exp, list, outcome, listOutcome).calls == 1
    ensures HandleLike(d, exp, list, outcome, listOutcome).list == list
  {
  }

  /** Repeated dialog clicks on one experience; each names what its two calls would produce. */
  function RunClicks(d: DetailState, exp: Experience, list: List.ListState,
                     clicks: seq<(List.CallOutcome, List.CallOutcome)>): (r: (DetailState, List.ListState, nat))
    decreases |clicks|
  {
    if |clicks| == 0 then (d, list, 0)
    else
      var first := HandleLike(d, exp, list, clicks[0].0, clicks[0].1);
      var rest := RunClicks(first.detail, exp, first.list, clicks[1..]);
      (rest.0, rest.1, first.calls + rest.2)
  }

  /**
   * Every completed click issues its own increment: k clicks send at least k
   * calls and at most 2k, and exactly k once the experience is in the liked list.
   */
  lemma {:induction false} RunClicksCalls(d: DetailState, exp: Experience, list: List.ListState,
                                          clicks: seq<(List.CallOutcome, List.CallOutcome)>)
    ensures |clicks| <= RunClicks(d, exp, list, clicks).2 <= 2 * |clicks|
    ensures exp.id in list.liked ==> RunClicks(d, exp, list, clicks).2 == |clicks|
    decreases |clicks|
  {
    if |clicks| > 0 {
      var first := HandleLike(d, exp, list, clicks[0].0, clicks[0].1);
      if exp.id in list.liked {
        SingleIncrementWhenLiked(d, exp, list, clicks[0].0, clicks[0].1);
      }
      RunClicksCalls(first.detail, exp, first.list, clicks[1..]);
    }
  }
}
