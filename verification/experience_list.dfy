/**
 * The like bookkeeping of the experience list (app/components/ExperienceList.tsx):
 * the session's list of liked ids, updated optimistically before the backend
 * call and reverted when the call yields null or throws.
 */
module ExperienceList {
  import opened Wrappers
  import opened Seqs
  import opened Db

  /** What awaiting `likeExperience(id)` produced: a value (possibly null), or an exception. */
  datatype CallOutcome = Returned(value: Option<int>) | Threw

  predicate Succeeded(outcome: CallOutcome)
  {
    outcome.Returned? && outcome.value.Some?
  }

  /** The component's state: the experiences it displays and the ids liked in this session. */
  datatype ListState = ListState(experiences: seq<Experience>, liked: seq<int>)

  /** `disabled={likedExperiences.includes(experience.id)}` on an experience's like button. */
  predicate LikeDisabled(s: ListState, id: int)
  {
    id in s.liked
  }

  /** The state while the backend call is awaited: the id appended optimistically. */
  function Pending(s: ListState, id: int): (r: ListState)
    requires id !in s.liked
    ensures LikeDisabled(r, id)
    ensures r.experiences == s.experiences
    ensures |r.liked| == |s.liked| + 1 && r.liked[..|s.liked|] == s.liked && r.liked[|s.liked|] == id
    ensures NoDuplicates(s.liked) ==> NoDuplicates(r.liked)
  {
    s.(liked := s.liked + [id])
  }

  /** Dropping the id from the optimistic list gives back the list before it. */
  lemma {:induction false} RevertRestores(liked: seq<int>, id: int)
    requires id !in liked
    ensures Filter(liked + [id], x => x != id) == liked
  {
    if |liked| == 0 {
      assert [] + [id] == [id];
    } else {
      assert (liked + [id])[1..] == liked[1..] + [id];
      RevertRestores(liked[1..], id);
      assert liked == [liked[0]] + liked[1..];
    }
  }

  /** The outcome of one `handleLike` call: the new state and how many `likeExperience` calls it made. */
  datatype LikeStep = LikeStep(state: ListState, calls: nat)

  /**
   * `handleLike(id)`: an id already liked changes nothing and calls nothing;
   * otherwise it is appended, one backend call is made, and the append is
   * undone when that call yields null or throws.
   */
  function HandleLike(s: ListState, id: int, outcome: CallOutcome): (r: LikeStep)
    ensures id in s.liked ==> r == LikeStep(s, 0)
    ensures id !in s.liked ==> r.calls == 1
    ensures id !in s.liked && !Succeeded(outcome) ==> r.state == s
    ensures id !in s.liked && Succeeded(outcome) ==> r.state.liked == s.liked + [id]
    ensures r.state.experiences == s.experiences
    ensures NoDuplicates(s.liked) ==> NoDuplicates(r.state.liked)
    ensures LikeDisabled(r.state, id) <==> LikeDisabled(s, id) || Succeeded(outcome)
  {
    if id in s.liked then LikeStep(s, 0)
    else
      var pending := Pending(s, id);
      if Succeeded(outcome) then LikeStep(pending, 1)
      else
        RevertRestores(s.liked, id);
        LikeStep(pending.(liked := Filter(pending.liked, x => x != id)), 1)
  }

  /** The button is disabled exactly when a click on it would do nothing and call nothing. */
  lemma DisabledIffClickIgnored(s: ListState, id: int, outcome: CallOutcome)
    ensures LikeDisabled(s, id) <==> HandleLike(s, id, outcome).calls == 0
    ensures LikeDisabled(s, id) ==> HandleLike(s, id, outcome).state == s
  {
  }

  /** While the call is awaited the button of that experience is disabled. */
  lemma DisabledWhilePending(s: ListState, id: int)
    requires id !in s.liked
    ensures !LikeDisabled(s, id) && LikeDisabled(Pending(s, id), id)
  {
  }

  /** A session of like clicks on the list: each click names an id and what its call would produce. */
  function RunLikes(s: ListState, clicks: seq<(int, CallOutcome)>): LikeStep
    decreases |clicks|
  {
    if |clicks| == 0 then LikeStep(s, 0)
    else
      var first := HandleLike(s, clicks[0].0, clicks[0].1);
      var rest := RunLikes(first.state, clicks[1..]);
      LikeStep(rest.state, first.calls + rest.calls)
  }

  /**
   * Over any session the liked list stays free of duplicates, the displayed
   * experiences (and their like counts) are untouched, and no click makes more
   * than one call.
   */
  lemma {:induction false} RunLikesInvariant(s: ListState, clicks: seq<(int, CallOutcome)>)
    requires NoDuplicates(s.liked)
    ensures var r := RunLikes(s, clicks);
            NoDuplicates(r.state.liked) && r.state.experiences == s.experiences && r.calls <= |clicks|
    decreases |clicks|
  {
    if |clicks| > 0 {
      var first := HandleLike(s, clicks[0].0, clicks[0].1);
      RunLikesInvariant(first.state, clicks[1..]);
    }
  }

  /**
   * A like whose increment reached the store but whose re-read failed is
   * still reverted, so the same session can click again and send a second
   * increment for the same experience.
   */
  lemma CommittedLikeCanBeRepeated(s: ListState, id: int, again: CallOutcome)
    requires id !in s.liked
    ensures var first := HandleLike(s, id, Returned(LikeExperience(RpcOk, None)));
            first.state == s && first.calls == 1 && HandleLike(first.state, id, again).calls == 1
  {
  }

  /** A re-read count of 0 reads as null, so the optimistic like is reverted. */
  lemma ZeroCountReverts(s: ListState, row: Experience)
    requires row.id !in s.liked && row.likes == 0
    ensures HandleLike(s, row.id, Returned(LikeExperience(RpcOk, Some(row)))).state == s
  {
  }
}
