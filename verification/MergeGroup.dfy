/** Judging a merge group (scripts/autonomy-tier-verdict.ts): the paged review list, one squash
  commit per pull request, and the group's verdict. */
module MergeGroup {
  import opened Options
  import opened Collections
  import opened ReviewVerdict

  // ----- Paged fetching -----

  const PAGE_SIZE: nat := 100
  const MAX_PAGES: nat := 30

  /** A review as the API returns it; a deleted account has no user. */
  datatype ApiReview = ApiReview(id: int, user: Option<string>, state: ReviewState, commitId: Option<string>,
                                 submittedAt: Option<string>, association: Option<string>)

  function AsReview(r: ApiReview): Review
    requires r.user.Some?
  {
    Review(r.user.value, r.state, r.commitId, r.submittedAt, r.id, r.association)
  }

  /** All reviews that have a user, in order. */
  function WithUser(all: seq<ApiReview>): seq<Review> {
    if all == [] then [] else
    var n := |all| - 1;
    WithUser(all[..n]) + if all[n].user.Some? then [AsReview(all[n])] else []
  }

  /** `r` carries what the API returned, field by field. */
  ghost predicate IsReviewOf(r: Review, a: ApiReview) {
    && a.user == Some(r.login) && r.state == a.state && r.commitId == a.commitId
    && r.submittedAt == a.submittedAt && r.id == a.id && r.association == a.association
  }

  ghost function PlacesWithUser(all: seq<ApiReview>): set<nat> {
    set i: nat | i < |all| && all[i].user.Some?
  }

  ghost predicate AreReviewsOf(reviews: seq<Review>, all: seq<ApiReview>, places: seq<nat>) {
    && |reviews| == |places|
    && forall k :: 0 <= k < |places| ==> places[k] < |all| && IsReviewOf(reviews[k], all[places[k]])
  }

  /** Exactly the reviews that have a user, in order, each with all its fields. */
  lemma {:induction false} WithUserIsExact(all: seq<ApiReview>) returns (places: seq<nat>)
    ensures Lists(places, PlacesWithUser(all)) && AreReviewsOf(WithUser(all), all, places)
  {
    places := [];
    if all != [] {
      var n := |all| - 1;
      places := WithUserIsExact(all[..n]);
      if all[n].user.Some? {
        ListsOneMore(places, PlacesWithUser(all[..n]), n);
        assert PlacesWithUser(all) == PlacesWithUser(all[..n]) + {n};
        places := places + [n];
      } else {
        assert PlacesWithUser(all) == PlacesWithUser(all[..n]);
      }
    }
  }

  lemma {:induction false} WithUserOfConcat(xs: seq<ApiReview>, ys: seq<ApiReview>)
    ensures WithUser(xs + ys) == WithUser(xs) + WithUser(ys)
  {
    if ys == [] {
      assert xs + ys == xs;
    } else {
      var n := |ys| - 1;
      assert (xs + ys)[..|xs + ys| - 1] == xs + ys[..n];
      WithUserOfConcat(xs, ys[..n]);
    }
  }

  lemma NobodyYet(all: seq<ApiReview>)
    requires |all| == 0
    ensures WithUser(all) == []
  {
  }

  function Min(a: nat, b: nat): nat {
    if a < b then a else b
  }

  /** What the server answers for page `page`, counted from 1. */
  function Page(all: seq<ApiReview>, page: nat): seq<ApiReview>
    requires page >= 1
  {
    all[Min((page - 1) * PAGE_SIZE, |all|)..Min(page * PAGE_SIZE, |all|)]
  }

  method CollectPage(batch: seq<ApiReview>, out: seq<Review>) returns (more: seq<Review>)
    ensures more == out + WithUser(batch)
  {
    more := out;
    for i := 0 to |batch|
      invariant more == out + WithUser(batch[..i])
    {
      assert batch[..i + 1][..i] == batch[..i];
      if batch[i].user.Some? {
        more := more + [AsReview(batch[i])];
      }
    }
    assert batch[..|batch|] == batch;
  }

  /** The whole list or a refusal, never a part of it: it answers exactly when the server holds
      fewer than 3000 reviews. */
  method FetchReviews(all: seq<ApiReview>) returns (reviews: Option<seq<Review>>)
    ensures reviews.Some? <==> |all| < PAGE_SIZE * MAX_PAGES
    ensures reviews.Some? ==> reviews.value == WithUser(all)
    ensures reviews.Some? ==>
      exists places :: Lists(places, PlacesWithUser(all)) && AreReviewsOf(reviews.value, all, places)
  {
    hide Lists, AreReviewsOf, PlacesWithUser, WithUser;
    ghost var places := WithUserIsExact(all);
    var out: seq<Review> := [];
    NobodyYet(all[..0]);
    var page := 1;
    while page <= MAX_PAGES
      invariant 1 <= page <= MAX_PAGES + 1
      invariant (page - 1) * PAGE_SIZE <= |all|
      invariant out == WithUser(all[..(page - 1) * PAGE_SIZE])
    {
      var batch := Page(all, page);
      ghost var done := all[..(page - 1) * PAGE_SIZE];
      out := CollectPage(batch, out);
      WithUserOfConcat(done, batch);
      assert done + batch == all[..Min(page * PAGE_SIZE, |all|)];
      if |batch| < PAGE_SIZE {
        assert all[..|all|] == all;
        return Some(out);
      }
      page := page + 1;
    }
    reviews := None;
  }

  // ----- One commit per pull request -----

  /** A commit of the group and the number its squash title ends in, if any. */
  datatype Commit = Commit(sha: string, pr: Option<nat>)

  datatype Queued = Queued(sha: string, number: nat)

  datatype GroupError = EmptyGroup | UnnamedCommit(sha: string) | RepeatedPr(number: nat) | RefNotInGroup

  datatype GroupResult = Named(queued: seq<Queued>) | Refused(error: GroupError)

  /** Commits and pull requests correspond one to one, in order, and the ref's one is among them. */
  ghost predicate Corresponds(commits: seq<Commit>, refPr: Option<nat>, queued: seq<Queued>) {
    && commits != [] && |queued| == |commits|
    && (forall i :: 0 <= i < |commits| ==>
          commits[i].sha == queued[i].sha && commits[i].pr == Some(queued[i].number))
    && (forall i, j :: 0 <= i < j < |queued| ==> queued[i].number != queued[j].number)
    && refPr.Some? && exists i :: 0 <= i < |queued| && queued[i].number == refPr.value
  }

  method MergeGroupPrs(commits: seq<Commit>, refPr: Option<nat>) returns (result: GroupResult)
    ensures result.Named? ==> Corresponds(commits, refPr, result.queued)
    ensures result.Refused? ==> forall queued :: !Corresponds(commits, refPr, queued)
    ensures result == Refused(EmptyGroup) <==> commits == []
    ensures forall sha :: result == Refused(UnnamedCommit(sha)) ==> Commit(sha, None) in commits
    ensures forall n: nat :: result == Refused(RepeatedPr(n)) ==>
      exists i, j :: 0 <= i < j < |commits| && commits[i].pr == commits[j].pr == Some(n)
    ensures result == Refused(RefNotInGroup) ==>
      refPr.None? || forall i :: 0 <= i < |commits| ==> commits[i].pr != refPr
  {
    if commits == [] {
      return Refused(EmptyGroup);
    }
    var out: seq<Queued> := [];
    for i := 0 to |commits|
      invariant |out| == i
      invariant forall j :: 0 <= j < i ==> commits[j].sha == out[j].sha && commits[j].pr == Some(out[j].number)
    {
      if commits[i].pr.None? {
        return Refused(UnnamedCommit(commits[i].sha));
      }
      out := out + [Queued(commits[i].sha, commits[i].pr.value)];
    }
    forall queued | Corresponds(commits, refPr, queued)
      ensures queued == out
    {
      assert forall i :: 0 <= i < |commits| ==> queued[i] == out[i];
    }
    var seen: set<nat> := {};
    for i := 0 to |out|
      invariant forall n :: n in seen <==> exists j :: 0 <= j < i && out[j].number == n
      invariant forall j, k :: 0 <= j < k < i ==> out[j].number != out[k].number
    {
      if out[i].number in seen {
        return Refused(RepeatedPr(out[i].number));
      }
      seen := seen + {out[i].number};
    }
    if refPr.None? || refPr.value !in seen {
      return Refused(RefNotInGroup);
    }
    result := Named(out);
  }

  // ----- The group's verdict -----

  predicate Decide(prs: seq<PrInput>, autonomyT0: Option<string>) {
    prs != [] && forall i :: 0 <= i < |prs| ==> DecidePr(prs[i], autonomyT0).pass
  }

  datatype Phase = Expand | Contract

  const EXPAND_SWITCH_VALUE := "<expand phase: engaged>"

  /** In the expand phase the observed switch value is ignored. */
  function SwitchForVerdict(observed: Option<string>, phase: Phase): (value: Option<string>)
    ensures phase.Contract? ==> value == observed
    ensures phase.Expand? ==> value != Some("on")
  {
    if phase.Expand? then Some(EXPAND_SWITCH_VALUE) else observed
  }

  /** A pull request as the API reports it. */
  datatype PrInfo = PrInfo(isOpen: bool, baseRef: string, headSha: string, reviews: seq<ApiReview>)

  /** What the run reads: the API by number, and the classifier by commit. */
  datatype World = World(pr: nat -> PrInfo, tier: string -> Tier)

  /** The input one queued commit is judged with. */
  function InputOf(world: World, q: Queued): PrInput {
    var info := world.pr(q.number);
    PrInput(q.number, info.headSha, world.tier(q.sha), WithUser(info.reviews))
  }

  /** The queued pull request is open against main and its review list can be read in full. */
  predicate IsJudgeable(world: World, q: Queued) {
    var info := world.pr(q.number);
    info.isOpen && info.baseRef == "main" && |info.reviews| < PAGE_SIZE * MAX_PAGES
  }

  method GatherInputs(world: World, queued: seq<Queued>) returns (prs: Option<seq<PrInput>>)
    ensures prs.Some? <==> forall i :: 0 <= i < |queued| ==> IsJudgeable(world, queued[i])
    ensures prs.Some? ==> |prs.value| == |queued|
    ensures prs.Some? ==> forall i :: 0 <= i < |queued| ==> prs.value[i] == InputOf(world, queued[i])
  {
    var out: seq<PrInput> := [];
    for i := 0 to |queued|
      invariant |out| == i
      invariant forall j :: 0 <= j < i ==> IsJudgeable(world, queued[j]) && out[j] == InputOf(world, queued[j])
    {
      var q := queued[i];
      var info := world.pr(q.number);
      if !info.isOpen || info.baseRef != "main" {
        return None;
      }
      var reviews := FetchReviews(info.reviews);
      if reviews.None? {
        return None;
      }
      out := out + [PrInput(q.number, info.headSha, world.tier(q.sha), reviews.value)];
    }
    prs := Some(out);
  }

  /** The pull request a commit names has the founder's approval or no machine approval. */
  predicate HasNoLoneMachine(world: World, c: Commit) {
    && c.pr.Some?
    && var info := world.pr(c.pr.value);
       FounderAtHead(WithUser(info.reviews), info.headSha) || !MachineApproved(WithUser(info.reviews))
  }

  /** The pull request a commit names is open against main, its review list can be read, and it
      passes with its own head and reviews and the tier of this commit. */
  ghost predicate CommitPasses(world: World, c: Commit, autonomyT0: Option<string>) {
    && c.pr.Some?
    && var info := world.pr(c.pr.value);
       && info.isOpen && info.baseRef == "main" && |info.reviews| < 3000
       && DecidePr(PrInput(c.pr.value, info.headSha, world.tier(c.sha), WithUser(info.reviews)), autonomyT0).pass
  }

  /** The run on a merge group, with the provenance failures of the run. It passes if and only if
      the group is not empty, its commits and pull requests correspond one to one with the queue
      ref's among them, each is judgeable and passes on its own, and provenance holds. In the
      expand phase no observed switch value lets a machine approval through without the founder. */
  method JudgeMergeGroup(world: World, commits: seq<Commit>, refPr: Option<nat>, observed: Option<string>,
                         phase: Phase, provenanceFailures: seq<string>)
    returns (pass: bool)
    ensures pass <==>
      && provenanceFailures == [] && (exists queued :: Corresponds(commits, refPr, queued))
      && forall i :: 0 <= i < |commits| ==> CommitPasses(world, commits[i], SwitchForVerdict(observed, phase))
    ensures phase.Expand? && pass ==> forall i :: 0 <= i < |commits| ==> HasNoLoneMachine(world, commits[i])
  {
    hide HasNoLoneMachine, CommitPasses, IsJudgeable, DecidePr, SwitchForVerdict;
    var group := MergeGroupPrs(commits, refPr);
    if group.Refused? {
      return false;
    }
    var queued := group.queued;
    var switch := SwitchForVerdict(observed, phase);
    forall i | 0 <= i < |commits|
      ensures CommitPasses(world, commits[i], switch) <==>
        IsJudgeable(world, queued[i]) && DecidePr(InputOf(world, queued[i]), switch).pass
      ensures phase.Expand? && CommitPasses(world, commits[i], switch) ==> HasNoLoneMachine(world, commits[i])
    {
      CommitIsJudged(world, commits[i], queued[i], switch);
      if phase.Expand? && CommitPasses(world, commits[i], switch) {
        ExpandHasNoLoneMachine(world, commits[i], observed);
      }
    }
    var prs := GatherInputs(world, queued);
    if prs.None? {
      return false;
    }
    pass := Decide(prs.value, switch) && provenanceFailures == [];
  }

  lemma CommitIsJudged(world: World, c: Commit, q: Queued, autonomyT0: Option<string>)
    requires c.sha == q.sha && c.pr == Some(q.number)
    ensures CommitPasses(world, c, autonomyT0) <==>
      IsJudgeable(world, q) && DecidePr(InputOf(world, q), autonomyT0).pass
  {
    hide DecidePr, WithUser;
  }

  lemma ExpandHasNoLoneMachine(world: World, c: Commit, observed: Option<string>)
    requires CommitPasses(world, c, SwitchForVerdict(observed, Expand))
    ensures HasNoLoneMachine(world, c)
  {
    hide WithUser, FounderAtHead;
    MachineApprovedMeans(WithUser(world.pr(c.pr.value).reviews));
  }
}
