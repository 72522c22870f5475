/** The review verdict of one pull request (scripts/autonomy-tier-verdict.ts): standing review
  states, the decision, and what it can do over a history of reviews, dismissals and pushes. */
module ReviewVerdict {
  import opened Options

  datatype ReviewState = Approved | ChangesRequested | Commented | Dismissed | Pending

  datatype Review = Review(
    login: string,
    state: ReviewState,
    commitId: Option<string>,
    submittedAt: Option<string>,
    id: int,
    association: Option<string>
  )

  const MACHINE_REVIEWER := "motebit-reviewer"
  const FOUNDER := "hakimlabs"
  const TRUSTED_ASSOCIATIONS := {"OWNER", "MEMBER", "COLLABORATOR"}

  /** Case folding of a login. */
  function Lower(s: string): string {
    seq(|s|, i requires 0 <= i < |s| => if 'A' <= s[i] <= 'Z' then (s[i] as int + 32) as char else s[i])
  }

  /** The same letter, in either case. */
  predicate IsSameLetter(c: char, d: char) {
    || c == d
    || ('A' <= c <= 'Z' && d as int == c as int + 32)
    || ('A' <= d <= 'Z' && c as int == d as int + 32)
  }

  /** Two logins fold to one exactly when they differ in case alone. */
  lemma LowerFoldsCase(s: string, t: string)
    ensures Lower(s) == Lower(t) <==> |s| == |t| && forall i :: 0 <= i < |s| ==> IsSameLetter(s[i], t[i])
  {
    if Lower(s) == Lower(t) {
      forall i | 0 <= i < |s|
        ensures IsSameLetter(s[i], t[i])
      {
        assert Lower(s)[i] == Lower(t)[i];
      }
    }
  }

  // ----- The order of reviews -----

  /** The order of strings: by the first difference, a proper prefix first. */
  predicate TextLess(a: string, b: string) {
    if b == "" then false
    else if a == "" then true
    else if a[0] != b[0] then a[0] < b[0]
    else TextLess(a[1..], b[1..])
  }

  lemma {:induction false} TextLessIsTotal(a: string, b: string)
    ensures !(TextLess(a, b) && TextLess(b, a))
    ensures a == b <==> !TextLess(a, b) && !TextLess(b, a)
  {
    if a != "" && b != "" && a[0] == b[0] {
      TextLessIsTotal(a[1..], b[1..]);
      assert a == [a[0]] + a[1..] && b == [b[0]] + b[1..];
    }
  }

  lemma {:induction false} TextLessIsTransitive(a: string, b: string, c: string)
    requires TextLess(a, b) && TextLess(b, c)
    ensures TextLess(a, c)
  {
    if a != "" && a[0] == b[0] == c[0] {
      TextLessIsTransitive(a[1..], b[1..], c[1..]);
    }
  }

  /** At `k` the strings differ for the first time: `a` ends there, or has the smaller character. */
  predicate IsSmallerAt(a: string, b: string, k: int) {
    0 <= k <= |a| && k < |b| && a[..k] == b[..k] && (k == |a| || a[k] < b[k])
  }

  lemma {:induction false} TextLessIsExact(a: string, b: string)
    ensures TextLess(a, b) <==> exists k :: IsSmallerAt(a, b, k)
  {
    if a == "" || b == "" || a[0] != b[0] {
      assert TextLess(a, b) ==> IsSmallerAt(a, b, 0);
      if k :| IsSmallerAt(a, b, k) {
        SmallerStartsEqual(a, b, k);
      }
    } else {
      TextLessIsExact(a[1..], b[1..]);
      if TextLess(a, b) {
        var k :| IsSmallerAt(a[1..], b[1..], k);
        SmallerFurtherOn(a, b, k);
      }
      if k :| IsSmallerAt(a, b, k) {
        SmallerFurtherOn(a, b, k - 1);
      }
    }
  }

  lemma SmallerStartsEqual(a: string, b: string, k: int)
    requires IsSmallerAt(a, b, k)
    ensures k == 0 || (a != "" && b != "" && a[0] == b[0])
  {
    if k > 0 {
      assert a[..k][0] == a[0] && b[..k][0] == b[0];
    }
  }

  lemma SmallerFurtherOn(a: string, b: string, k: int)
    requires a != "" && b != "" && a[0] == b[0]
    ensures IsSmallerAt(a[1..], b[1..], k) <==> IsSmallerAt(a, b, k + 1)
  {
    if 0 <= k && k + 1 <= |a| && k + 1 <= |b| {
      assert a[..k + 1] == [a[0]] + a[1..][..k];
      assert b[..k + 1] == [b[0]] + b[1..][..k];
    }
  }

  function Time(r: Review): string {
    if r.submittedAt.Some? then r.submittedAt.value else ""
  }

  /** The comparator puts `a` strictly before `b`: by submission time, then by id. */
  predicate Before(a: Review, b: Review) {
    if Time(a) == Time(b) then a.id < b.id else TextLess(Time(a), Time(b))
  }

  /** `a` was submitted earlier than `b`, or at the same time with no higher id. */
  predicate NotAfter(a: Review, b: Review) {
    TextLess(Time(a), Time(b)) || (Time(a) == Time(b) && a.id <= b.id)
  }

  lemma NotAfterIsTransitive(a: Review, b: Review, c: Review)
    requires NotAfter(a, b) && NotAfter(b, c)
    ensures NotAfter(a, c)
  {
    TextLessIsTotal(Time(a), Time(b));
    TextLessIsTotal(Time(b), Time(c));
    TextLessIsTotal(Time(a), Time(c));
    if TextLess(Time(a), Time(b)) && TextLess(Time(b), Time(c)) {
      TextLessIsTransitive(Time(a), Time(b), Time(c));
    }
  }

  lemma BeforeIsNotAfter(a: Review, b: Review)
    ensures Before(a, b) ==> NotAfter(a, b)
    ensures !Before(b, a) <==> NotAfter(a, b)
    ensures NotAfter(a, b) && NotAfter(b, a) ==> Time(a) == Time(b) && a.id == b.id
  {
    TextLessIsTotal(Time(a), Time(b));
  }

  lemma StateDoesNotOrder(q: Review, r: Review)
    ensures NotAfter(q.(state := Dismissed), r) <==> NotAfter(q, r)
  {
  }

  lemma NotAfterItself(a: Review)
    ensures NotAfter(a, a)
  {
  }

  // ----- Standing states -----

  /** `[...reviews].sort(cmp)`: a stable sort, here by insertion. */
  function Sorted(reviews: seq<Review>): seq<Review> {
    if reviews == [] then [] else
    var n := |reviews| - 1;
    Insert(Sorted(reviews[..n]), reviews[n])
  }

  /** `r` goes behind every review the comparator does not put after it. */
  function Insert(ordered: seq<Review>, r: Review): seq<Review> {
    if ordered == [] then [r] else
    var n := |ordered| - 1;
    if !Before(r, ordered[n]) then ordered + [r] else Insert(ordered[..n], r) + [ordered[n]]
  }

  predicate IsSorted(s: seq<Review>) {
    forall i, j :: 0 <= i < j < |s| ==> NotAfter(s[i], s[j])
  }

  lemma {:induction false} InsertKeepsElements(ordered: seq<Review>, r: Review)
    ensures multiset(Insert(ordered, r)) == multiset(ordered) + multiset{r}
  {
    if ordered != [] {
      var n := |ordered| - 1;
      assert ordered == ordered[..n] + [ordered[n]];
      InsertKeepsElements(ordered[..n], r);
    }
  }

  lemma AppendKeepsOrder(s: seq<Review>, r: Review)
    requires IsSorted(s) && forall q :: q in s ==> NotAfter(q, r)
    ensures IsSorted(s + [r])
  {
    hide NotAfter;
  }

  lemma PrefixIsSorted(s: seq<Review>, n: nat)
    requires IsSorted(s) && n < |s|
    ensures IsSorted(s[..n]) && forall q :: q in s[..n] ==> NotAfter(q, s[n])
  {
    hide NotAfter;
    forall q | q in s[..n]
      ensures NotAfter(q, s[n])
    {
      var i :| 0 <= i < n && s[i] == q;
    }
  }

  lemma {:induction false} InsertKeepsOrder(ordered: seq<Review>, r: Review)
    requires IsSorted(ordered)
    ensures IsSorted(Insert(ordered, r))
  {
    hide NotAfter, Before, IsSorted;
    if ordered == [] {
      OneIsSorted(r);
    } else {
      var n := |ordered| - 1;
      var last := ordered[n];
      assert ordered == ordered[..n] + [last];
      BeforeIsNotAfter(last, r);
      BeforeIsNotAfter(r, last);
      PrefixIsSorted(ordered, n);
      if !Before(r, last) {
        forall q | q in ordered
          ensures NotAfter(q, r)
        {
          if q != last {
            NotAfterIsTransitive(q, last, r);
          }
        }
        AppendKeepsOrder(ordered, r);
      } else {
        var inner := Insert(ordered[..n], r);
        InsertKeepsOrder(ordered[..n], r);
        InsertKeepsElements(ordered[..n], r);
        forall q | q in inner
          ensures NotAfter(q, last)
        {
          assert q in multiset(inner);
          assert q == r || q in multiset(ordered[..n]);
        }
        AppendKeepsOrder(inner, last);
      }
    }
  }

  lemma OneIsSorted(r: Review)
    ensures IsSorted([r])
  {
  }

  lemma {:induction false} SortedIsASort(reviews: seq<Review>)
    ensures IsSorted(Sorted(reviews))
    ensures multiset(Sorted(reviews)) == multiset(reviews)
  {
    hide Insert, NotAfter;
    if reviews != [] {
      var n := |reviews| - 1;
      SortedIsASort(reviews[..n]);
      InsertKeepsOrder(Sorted(reviews[..n]), reviews[n]);
      InsertKeepsElements(Sorted(reviews[..n]), reviews[n]);
      assert reviews == reviews[..n] + [reviews[n]];
    }
  }

  lemma SortedHoldsTheSame(reviews: seq<Review>)
    ensures forall x :: x in Sorted(reviews) <==> x in reviews
  {
    SortedIsASort(reviews);
    assert forall x :: x in reviews <==> x in multiset(reviews);
    assert forall x :: x in Sorted(reviews) <==> x in multiset(Sorted(reviews));
  }

  /** Comments and drafts do not change a standing state. */
  predicate ChangesState(r: Review) {
    r.state.Approved? || r.state.ChangesRequested? || r.state.Dismissed?
  }

  /** The overwrite loop over an ordered list. */
  function Overwrite(ordered: seq<Review>): map<string, Review> {
    if ordered == [] then map[] else
    var n := |ordered| - 1;
    var before := Overwrite(ordered[..n]);
    if ChangesState(ordered[n]) then before[Lower(ordered[n].login) := ordered[n]] else before
  }

  function Standing(reviews: seq<Review>): map<string, Review> {
    Overwrite(Sorted(reviews))
  }

  method StandingStates(reviews: seq<Review>) returns (out: map<string, Review>)
    ensures out == Standing(reviews)
  {
    var ordered := Sorted(reviews);
    out := map[];
    for i := 0 to |ordered|
      invariant out == Overwrite(ordered[..i])
    {
      assert ordered[..i + 1][..i] == ordered[..i];
      if ChangesState(ordered[i]) {
        out := out[Lower(ordered[i].login) := ordered[i]];
      }
    }
    assert ordered[..|ordered|] == ordered;
  }

  /** `r` is a latest state-changing review of `login`. */
  ghost predicate IsLatest(reviews: seq<Review>, login: string, r: Review) {
    && r in reviews && ChangesState(r) && Lower(r.login) == login
    && forall q :: q in reviews && ChangesState(q) && Lower(q.login) == login ==> NotAfter(q, r)
  }

  lemma {:induction false} OverwriteKeepsLatest(ordered: seq<Review>, login: string)
    requires IsSorted(ordered)
    ensures login in Overwrite(ordered) ==> IsLatest(ordered, login, Overwrite(ordered)[login])
    ensures login !in Overwrite(ordered) ==>
      forall q :: q in ordered && ChangesState(q) ==> Lower(q.login) != login
  {
    hide NotAfter, ChangesState, Lower;
    if ordered != [] {
      var n := |ordered| - 1;
      OverwriteKeepsLatest(ordered[..n], login);
      assert forall x :: x in ordered <==> x in ordered[..n] || x == ordered[n];
      NotAfterItself(ordered[n]);
      forall q | q in ordered[..n]
        ensures NotAfter(q, ordered[n])
      {
        var i :| 0 <= i < n && ordered[i] == q;
      }
    }
  }

  /** The loop computes the declarative standing state: per folded login, a maximum by submission
      time and id among the state-changing reviews, and none exactly when there is no such review. */
  lemma StandingIsLatest(reviews: seq<Review>, login: string)
    ensures login in Standing(reviews) ==> IsLatest(reviews, login, Standing(reviews)[login])
    ensures login !in Standing(reviews) ==>
      forall q :: q in reviews && ChangesState(q) ==> Lower(q.login) != login
  {
    SortedIsASort(reviews);
    SortedHoldsTheSame(reviews);
    OverwriteKeepsLatest(Sorted(reviews), login);
  }

  /** The standing map with one more review: it takes the place of its login's standing review,
      unless it was submitted earlier, or at the same time with a lower id. */
  function WithOneMore(standing: map<string, Review>, r: Review): map<string, Review> {
    var login := Lower(r.login);
    if !ChangesState(r) then standing
    else if login in standing && IsEarlier(r, standing[login]) then standing
    else standing[login := r]
  }

  predicate IsEarlier(r: Review, s: Review) {
    TextLess(Time(r), Time(s)) || (Time(r) == Time(s) && r.id < s.id)
  }

  lemma BeforeIsEarlier(r: Review, s: Review)
    ensures Before(r, s) <==> IsEarlier(r, s)
  {
    TextLessIsTotal(Time(r), Time(s));
  }

  lemma {:induction false} OverwriteOfInsert(ordered: seq<Review>, r: Review)
    requires IsSorted(ordered)
    ensures Overwrite(Insert(ordered, r)) == WithOneMore(Overwrite(ordered), r)
  {
    hide NotAfter, Before, IsSorted, IsEarlier, ChangesState, Lower;
    if ordered == [] {
      assert [r][..0] == [];
    } else {
      var n := |ordered| - 1;
      var last := ordered[n];
      BeforeIsNotAfter(last, r);
      BeforeIsEarlier(r, last);
      PrefixIsSorted(ordered, n);
      if Before(r, last) {
        OverwriteOfInsert(ordered[..n], r);
        assert (Insert(ordered[..n], r) + [last])[..|Insert(ordered[..n], r)|] == Insert(ordered[..n], r);
        InsertedBeforeLast(Overwrite(ordered[..n]), r, last);
      } else {
        assert (ordered + [r])[..n + 1] == ordered;
        NoneIsLaterThan(ordered, r);
      }
    }
  }

  function Put(standing: map<string, Review>, r: Review): map<string, Review> {
    if ChangesState(r) then standing[Lower(r.login) := r] else standing
  }

  lemma InsertedBeforeLast(standing: map<string, Review>, r: Review, last: Review)
    requires IsEarlier(r, last)
    ensures Put(WithOneMore(standing, r), last) == WithOneMore(Put(standing, last), r)
  {
    hide IsEarlier, ChangesState, Lower;
  }

  /** A review not before the last of an ordered list is not before any standing review of it. */
  lemma NoneIsLaterThan(ordered: seq<Review>, r: Review)
    requires IsSorted(ordered) && ordered != [] && !Before(r, ordered[|ordered| - 1])
    ensures WithOneMore(Overwrite(ordered), r) == Put(Overwrite(ordered), r)
  {
    hide NotAfter, Before, IsEarlier, ChangesState, Lower, Overwrite;
    var login, last := Lower(r.login), ordered[|ordered| - 1];
    if login in Overwrite(ordered) {
      OverwriteKeepsLatest(ordered, login);
      var s := Overwrite(ordered)[login];
      BeforeIsNotAfter(last, r);
      PrefixIsSorted(ordered, |ordered| - 1);
      NotAfterItself(last);
      assert s in ordered[..|ordered| - 1] || s == last;
      NotAfterIsTransitive(s, last, r);
      BeforeIsNotAfter(s, r);
      BeforeIsEarlier(r, s);
    }
  }

  /** Sorting and overwriting keeps, review by review as listed, the latest of each login, a tie
      going to the one listed later. */
  lemma StandingOfOneMore(reviews: seq<Review>, r: Review)
    ensures Standing(reviews + [r]) == WithOneMore(Standing(reviews), r)
  {
    assert (reviews + [r])[..|reviews|] == reviews;
    SortedIsASort(reviews);
    OverwriteOfInsert(Sorted(reviews), r);
  }

  /** `q` was submitted before time `t`. */
  ghost predicate IsSubmittedBefore(q: Review, t: string) {
    match q.submittedAt
    case None => t != ""
    case Some(s) => exists k :: IsSmallerAt(s, t, k)
  }

  /** Neither a comment nor a draft. */
  ghost predicate IsAVerdict(r: Review) {
    r.state != Commented && r.state != Pending
  }

  /** Comments and drafts leave every standing state as it was. */
  lemma CommentsDoNotCount(reviews: seq<Review>, r: Review)
    requires !IsAVerdict(r)
    ensures Standing(reviews + [r]) == Standing(reviews)
  {
    StandingOfOneMore(reviews, r);
  }

  /** An approval, a request for changes or a dismissed review submitted later than every other of its
      login stands. */
  lemma LaterReviewStands(reviews: seq<Review>, r: Review, t: string)
    requires r in reviews && IsAVerdict(r) && r.submittedAt == Some(t)
    requires forall q :: q in reviews && q != r && IsAVerdict(q) && Lower(q.login) == Lower(r.login) ==>
      IsSubmittedBefore(q, t)
    ensures Lower(r.login) in Standing(reviews) && Standing(reviews)[Lower(r.login)] == r
  {
    StandingIsLatest(reviews, Lower(r.login));
    var q := Standing(reviews)[Lower(r.login)];
    TextLessIsExact(Time(q), t);
    TextLessIsTotal(Time(q), t);
    assert t != "" ==> IsSmallerAt("", t, 0);
  }

  ghost predicate DistinctIds(reviews: seq<Review>) {
    forall i, j :: 0 <= i < j < |reviews| ==> reviews[i].id != reviews[j].id
  }

  lemma LatestIsUnique(reviews: seq<Review>, login: string, r: Review, q: Review)
    requires DistinctIds(reviews) && IsLatest(reviews, login, r) && IsLatest(reviews, login, q)
    ensures r == q
  {
    BeforeIsNotAfter(r, q);
    var i :| 0 <= i < |reviews| && reviews[i] == r;
    var j :| 0 <= j < |reviews| && reviews[j] == q;
  }

  /** Two lists that offer the same state-changing reviews of a login give it the same standing. */
  lemma StandingDependsOnOwnReviews(xs: seq<Review>, ys: seq<Review>, login: string)
    requires DistinctIds(xs)
    requires forall q :: ChangesState(q) && Lower(q.login) == login ==> (q in xs <==> q in ys)
    ensures login in Standing(xs) <==> login in Standing(ys)
    ensures login in Standing(xs) ==> Standing(xs)[login] == Standing(ys)[login]
  {
    StandingIsLatest(xs, login);
    StandingIsLatest(ys, login);
    if login in Standing(xs) && login in Standing(ys) {
      LatestIsUnique(xs, login, Standing(xs)[login], Standing(ys)[login]);
    }
  }

  /** The order in which the API lists the reviews does not matter. */
  lemma StandingIgnoresListOrder(xs: seq<Review>, ys: seq<Review>)
    requires DistinctIds(xs) && multiset(xs) == multiset(ys)
    ensures Standing(xs) == Standing(ys)
  {
    assert forall q :: q in xs <==> q in multiset(xs);
    assert forall q :: q in ys <==> q in multiset(ys);
    forall login: string
      ensures login in Standing(xs) <==> login in Standing(ys)
      ensures login in Standing(xs) ==> Standing(xs)[login] == Standing(ys)[login]
    {
      StandingDependsOnOwnReviews(xs, ys, login);
    }
  }

  // ----- The decision -----

  datatype Tier = T0 | T1 | ClassifierError

  datatype PrInput = PrInput(number: nat, headSha: string, tier: Tier, reviews: seq<Review>)

  datatype Reason = IsT0 | FounderApproved | NoMachineApproval | MachineApprovedT1 | KillSwitchMachineOnly

  datatype PrVerdict = PrVerdict(number: nat, pass: bool, reason: Reason)

  /** Only the exact value "on" leaves the switch disengaged. */
  predicate KillSwitchEngaged(value: Option<string>) {
    value != Some("on")
  }

  predicate IsMachineApproval(r: Review) {
    Lower(r.login) == Lower(MACHINE_REVIEWER) && r.state.Approved?
  }

  /** Some machine review is still reported APPROVED, standing or not. */
  predicate MachineApproved(reviews: seq<Review>) {
    exists i :: 0 <= i < |reviews| && IsMachineApproval(reviews[i])
  }

  /** A trusted approval that names the commit `head`. */
  predicate IsTrustedApproval(r: Review, head: string) {
    && r.state.Approved? && r.commitId == Some(head)
    && r.association.Some? && r.association.value in TRUSTED_ASSOCIATIONS
  }

  predicate FounderAtHead(reviews: seq<Review>, head: string) {
    var standing := Standing(reviews);
    Lower(FOUNDER) in standing && IsTrustedApproval(standing[Lower(FOUNDER)], head)
  }

  /** A trusted association, by name. */
  ghost predicate IsTrusted(association: Option<string>) {
    association == Some("OWNER") || association == Some("MEMBER") || association == Some("COLLABORATOR")
  }

  /** With distinct ids, the founder has approved the head exactly when the latest state-changing
      review of the founder's login is an approval of the head by a trusted account. */
  lemma FounderAtHeadIsExact(reviews: seq<Review>, head: string)
    requires DistinctIds(reviews)
    ensures FounderAtHead(reviews, head) <==>
      exists r :: IsLatest(reviews, "hakimlabs", r) && r.state.Approved? && r.commitId == Some(head)
        && IsTrusted(r.association)
  {
    FounderIsLower();
    StandingIsLatest(reviews, Lower(FOUNDER));
    if exists r :: IsLatest(reviews, "hakimlabs", r) && IsTrustedApproval(r, head) {
      var r :| IsLatest(reviews, "hakimlabs", r) && IsTrustedApproval(r, head);
      LatestIsUnique(reviews, "hakimlabs", r, Standing(reviews)[Lower(FOUNDER)]);
    }
  }

  lemma FounderIsLower()
    ensures Lower(FOUNDER) == "hakimlabs"
  {
  }

  lemma MachineIsLower()
    ensures Lower(MACHINE_REVIEWER) == "motebit-reviewer"
  {
  }

  lemma MachineApprovedMeans(reviews: seq<Review>)
    ensures MachineApproved(reviews) <==>
      exists r :: r in reviews && r.state.Approved? && Lower(r.login) == "motebit-reviewer"
  {
    MachineIsLower();
    if exists r :: r in reviews && r.state.Approved? && Lower(r.login) == "motebit-reviewer" {
      var r :| r in reviews && r.state.Approved? && Lower(r.login) == "motebit-reviewer";
      var i :| 0 <= i < |reviews| && reviews[i] == r;
      assert IsMachineApproval(reviews[i]);
    }
  }

  function DecidePr(pr: PrInput, autonomyT0: Option<string>): (v: PrVerdict)
    ensures v.number == pr.number
    ensures v.pass <==>
      || FounderAtHead(pr.reviews, pr.headSha)
      || (forall r :: r in pr.reviews && r.state.Approved? ==> Lower(r.login) != "motebit-reviewer")
      || (pr.tier == T0 && autonomyT0 == Some("on"))
    ensures !v.pass ==> v.reason == if pr.tier == T0 then KillSwitchMachineOnly else MachineApprovedT1
    ensures v.reason == FounderApproved <==> FounderAtHead(pr.reviews, pr.headSha)
    ensures v.reason == NoMachineApproval <==>
      !FounderAtHead(pr.reviews, pr.headSha) && !MachineApproved(pr.reviews)
    ensures v.reason == IsT0 ==> pr.tier == T0 && autonomyT0 == Some("on")
  {
    MachineApprovedMeans(pr.reviews);
    if FounderAtHead(pr.reviews, pr.headSha) then PrVerdict(pr.number, true, FounderApproved)
    else if !MachineApproved(pr.reviews) then PrVerdict(pr.number, true, NoMachineApproval)
    else if pr.tier != T0 then PrVerdict(pr.number, false, MachineApprovedT1)
    else if KillSwitchEngaged(autonomyT0) then PrVerdict(pr.number, false, KillSwitchMachineOnly)
    else PrVerdict(pr.number, true, IsT0)
  }

  /** The verdict does not depend on the order the reviews are listed in. */
  lemma VerdictIgnoresListOrder(pr: PrInput, ys: seq<Review>, autonomyT0: Option<string>)
    requires DistinctIds(pr.reviews) && multiset(pr.reviews) == multiset(ys)
    ensures DecidePr(pr, autonomyT0) == DecidePr(pr.(reviews := ys), autonomyT0)
  {
    StandingIgnoresListOrder(pr.reviews, ys);
    assert forall q :: q in pr.reviews <==> q in multiset(pr.reviews);
    assert forall q :: q in ys <==> q in multiset(ys);
    MachineApprovedByMembership(pr.reviews);
    MachineApprovedByMembership(ys);
  }

  lemma MachineApprovedByMembership(reviews: seq<Review>)
    ensures MachineApproved(reviews) <==> exists r :: r in reviews && IsMachineApproval(r)
  {
  }

  // ----- Histories -----

  /** A pull request as GitHub reports it. */
  datatype PrState = PrState(head: string, reviews: seq<Review>)

  datatype Event =
    | Submit(review: Review)
    | Dismiss(id: int)                   // GitHub rewrites that review's state to DISMISSED
    | Push(head: string)
    | PushDismissing(head: string)       // a push under dismiss-stale-reviews

  function DismissIn(reviews: seq<Review>, id: int): (rs: seq<Review>)
    ensures |rs| == |reviews|
  {
    seq(|reviews|, i requires 0 <= i < |reviews| =>
      if reviews[i].id == id then reviews[i].(state := Dismissed) else reviews[i])
  }

  function DismissApprovals(reviews: seq<Review>): (rs: seq<Review>)
    ensures |rs| == |reviews|
  {
    seq(|reviews|, i requires 0 <= i < |reviews| =>
      if reviews[i].state.Approved? then reviews[i].(state := Dismissed) else reviews[i])
  }

  function Apply(s: PrState, e: Event): PrState {
    match e
    case Submit(r) => s.(reviews := s.reviews + [r])
    case Dismiss(id) => s.(reviews := DismissIn(s.reviews, id))
    case Push(head) => s.(head := head)
    case PushDismissing(head) => PrState(head, DismissApprovals(s.reviews))
  }

  /** A submitted review carries an id no other review has. */
  ghost predicate IsFresh(s: PrState, e: Event) {
    e.Submit? ==> forall r :: r in s.reviews ==> r.id != e.review.id
  }

  predicate Passes(s: PrState, tier: Tier, autonomyT0: Option<string>) {
    DecidePr(PrInput(0, s.head, tier, s.reviews), autonomyT0).pass
  }

  /** The founder's review `r` would be the standing one. */
  ghost predicate WouldStand(reviews: seq<Review>, r: Review) {
    forall q :: q in reviews && ChangesState(q) && Lower(q.login) == Lower(FOUNDER) ==> NotAfter(q, r)
  }

  /** What it takes to lift a failing pull request: the founder's own standing trusted approval of
      the current head, or the end of the last machine approval. */
  ghost predicate Lifts(s: PrState, e: Event) {
    match e
    case Submit(r) =>
      Lower(r.login) == Lower(FOUNDER) && IsTrustedApproval(r, s.head) && WouldStand(s.reviews, r)
    case Dismiss(id) =>
      forall r :: r in s.reviews && IsMachineApproval(r) ==> r.id == id
    case Push(head) =>
      FounderAtHead(s.reviews, head)
    case PushDismissing(_) =>
      true
  }

  /** A submission changes the founder's approval of the head only as its own standing review. */
  lemma SubmitDecidesFounder(reviews: seq<Review>, r: Review, head: string)
    requires DistinctIds(reviews + [r]) && !FounderAtHead(reviews, head)
    ensures FounderAtHead(reviews + [r], head) <==>
      Lower(r.login) == Lower(FOUNDER) && IsTrustedApproval(r, head) && WouldStand(reviews, r)
  {
    var more := reviews + [r];
    var founder := Lower(FOUNDER);
    assert forall q :: q in more <==> q in reviews || q == r;
    StandingIsLatest(more, founder);
    BeforeIsNotAfter(r, r);
    if founder in Standing(more) && Standing(more)[founder] != r {
      var kept := Standing(more)[founder];
      assert IsLatest(reviews, founder, kept);
      StandingIsLatest(reviews, founder);
      assert DistinctIds(reviews) by {
        assert forall i :: 0 <= i < |reviews| ==> more[i] == reviews[i];
      }
      LatestIsUnique(reviews, founder, kept, Standing(reviews)[founder]);
      if Lower(r.login) == founder && ChangesState(r) && WouldStand(reviews, r) {
        assert IsLatest(more, founder, r);
        LatestIsUnique(more, founder, kept, r);
      }
    }
  }

  /** `after` is `before` with some reviews rewritten to DISMISSED. */
  ghost predicate OnlyDismisses(before: seq<Review>, after: seq<Review>) {
    && |after| == |before|
    && forall i :: 0 <= i < |before| ==> after[i] == before[i] || after[i] == before[i].(state := Dismissed)
  }

  /** Dismissing reviews never creates a founder approval. */
  lemma DismissalNeverApproves(before: seq<Review>, after: seq<Review>, head: string)
    requires DistinctIds(before) && OnlyDismisses(before, after)
    ensures FounderAtHead(after, head) ==> FounderAtHead(before, head)
  {
    hide NotAfter, Lower, Standing;
    var founder := Lower(FOUNDER);
    if FounderAtHead(after, head) {
      var r := Standing(after)[founder];
      StandingIsLatest(after, founder);
      StandingIsLatest(before, founder);
      var k :| 0 <= k < |after| && after[k] == r;
      assert before[k] == r;
      assert r in before;
      forall q | q in before && ChangesState(q) && Lower(q.login) == founder
        ensures NotAfter(q, r)
      {
        var i :| 0 <= i < |before| && before[i] == q;
        assert after[i] in after && ChangesState(after[i]) && Lower(after[i].login) == founder;
        assert NotAfter(after[i], r);
        StateDoesNotOrder(q, r);
      }
      LatestIsUnique(before, founder, r, Standing(before)[founder]);
    }
  }

  lemma DismissalIsOne(reviews: seq<Review>, id: int)
    ensures OnlyDismisses(reviews, DismissIn(reviews, id))
    ensures MachineApproved(DismissIn(reviews, id)) <==>
      exists r :: r in reviews && IsMachineApproval(r) && r.id != id
  {
  }

  lemma StaleDismissalIsTotal(reviews: seq<Review>)
    ensures OnlyDismisses(reviews, DismissApprovals(reviews))
    ensures !MachineApproved(DismissApprovals(reviews))
  {
  }

  lemma SubmitKeepsMachineApproval(reviews: seq<Review>, r: Review)
    requires MachineApproved(reviews)
    ensures MachineApproved(reviews + [r])
  {
    var i :| 0 <= i < |reviews| && IsMachineApproval(reviews[i]);
    assert IsMachineApproval((reviews + [r])[i]);
  }

  /** One event, exactly: with tier and switch fixed, a failing pull request passes after it if and
      only if it lifts. */
  lemma LiftIsExact(s: PrState, e: Event, tier: Tier, autonomyT0: Option<string>)
    requires DistinctIds(s.reviews) && IsFresh(s, e) && !Passes(s, tier, autonomyT0)
    ensures Passes(Apply(s, e), tier, autonomyT0) <==> Lifts(s, e)
  {
    match e
    case Submit(r) =>
      assert DistinctIds(s.reviews + [r]);
      SubmitDecidesFounder(s.reviews, r, s.head);
      SubmitKeepsMachineApproval(s.reviews, r);
    case Dismiss(id) =>
      DismissalIsOne(s.reviews, id);
      DismissalNeverApproves(s.reviews, DismissIn(s.reviews, id), s.head);
    case Push(head) =>
    case PushDismissing(head) =>
      StaleDismissalIsTotal(s.reviews);
      DismissalNeverApproves(s.reviews, DismissApprovals(s.reviews), head);
  }

  /** The state after the first `n` events. */
  function StateAfter(s: PrState, es: seq<Event>, n: nat): PrState
    requires n <= |es|
  {
    if n == 0 then s else Apply(StateAfter(s, es, n - 1), es[n - 1])
  }

  ghost predicate IsHistory(s: PrState, es: seq<Event>) {
    && DistinctIds(s.reviews)
    && forall i :: 0 <= i < |es| ==> FreshAt(s, es, i)
  }

  ghost predicate FreshAt(s: PrState, es: seq<Event>, i: nat)
    requires i < |es|
  {
    IsFresh(StateAfter(s, es, i), es[i])
  }

  ghost predicate LiftsAt(s: PrState, es: seq<Event>, i: nat)
    requires i < |es|
  {
    Lifts(StateAfter(s, es, i), es[i])
  }

  lemma IdsStayDistinctByOne(s: PrState, e: Event)
    requires DistinctIds(s.reviews) && IsFresh(s, e)
    ensures DistinctIds(Apply(s, e).reviews)
  {
  }

  lemma {:induction false} IdsStayDistinct(s: PrState, es: seq<Event>, n: nat)
    requires IsHistory(s, es) && n <= |es|
    ensures DistinctIds(StateAfter(s, es, n).reviews)
  {
    if n > 0 {
      IdsStayDistinct(s, es, n - 1);
      assert FreshAt(s, es, n - 1);
      IdsStayDistinctByOne(StateAfter(s, es, n - 1), es[n - 1]);
    }
  }

  lemma LiftIsExactAt(s: PrState, es: seq<Event>, i: nat, tier: Tier, autonomyT0: Option<string>)
    requires IsHistory(s, es) && i < |es| && !Passes(StateAfter(s, es, i), tier, autonomyT0)
    ensures Passes(StateAfter(s, es, i + 1), tier, autonomyT0) <==> LiftsAt(s, es, i)
  {
    hide Passes, Lifts;
    IdsStayDistinct(s, es, i);
    assert FreshAt(s, es, i);
    LiftIsExact(StateAfter(s, es, i), es[i], tier, autonomyT0);
  }

  lemma {:induction false} FailsWhileUnlifted(s: PrState, es: seq<Event>, n: nat, tier: Tier,
                                              autonomyT0: Option<string>)
    requires IsHistory(s, es) && n <= |es| && !Passes(s, tier, autonomyT0)
    requires forall i :: 0 <= i < n ==> !LiftsAt(s, es, i)
    ensures !Passes(StateAfter(s, es, n), tier, autonomyT0)
  {
    hide Passes, Lifts;
    if n > 0 {
      FailsWhileUnlifted(s, es, n - 1, tier, autonomyT0);
      assert !LiftsAt(s, es, n - 1);
      LiftIsExactAt(s, es, n - 1, tier, autonomyT0);
    }
  }

  /** Over every history: a failing pull request fails until the first event that lifts it, and
      passes right after that event. */
  lemma FailsUntilLifted(s: PrState, es: seq<Event>, n: nat, tier: Tier, autonomyT0: Option<string>)
    requires IsHistory(s, es) && n < |es| && !Passes(s, tier, autonomyT0)
    requires forall i :: 0 <= i < n ==> !LiftsAt(s, es, i)
    ensures forall i :: 0 <= i <= n ==> !Passes(StateAfter(s, es, i), tier, autonomyT0)
    ensures Passes(StateAfter(s, es, n + 1), tier, autonomyT0) <==> LiftsAt(s, es, n)
  {
    hide Passes, Lifts;
    forall i | 0 <= i <= n
      ensures !Passes(StateAfter(s, es, i), tier, autonomyT0)
    {
      FailsWhileUnlifted(s, es, i, tier, autonomyT0);
    }
    LiftIsExactAt(s, es, n, tier, autonomyT0);
  }

  /** No number of further reviews by the machine or any other non-founder login lifts a failure. */
  lemma OthersNeverLift(s: PrState, es: seq<Event>, tier: Tier, autonomyT0: Option<string>)
    requires IsHistory(s, es) && !Passes(s, tier, autonomyT0)
    requires forall i :: 0 <= i < |es| ==> es[i].Submit? && Lower(es[i].review.login) != Lower(FOUNDER)
    ensures !Passes(StateAfter(s, es, |es|), tier, autonomyT0)
  {
    forall i | 0 <= i < |es|
      ensures !LiftsAt(s, es, i)
    {
    }
    FailsWhileUnlifted(s, es, |es|, tier, autonomyT0);
  }

  /** Whatever happened in between, a failure that has become a pass stands on the founder's
      standing trusted approval of the present head or on there being no machine approval left. */
  lemma PassAfterFailHasACause(s: PrState, t: PrState, tier: Tier, autonomyT0: Option<string>)
    requires !Passes(s, tier, autonomyT0) && Passes(t, tier, autonomyT0)
    ensures FounderAtHead(t.reviews, t.head) || !MachineApproved(t.reviews)
    ensures FounderAtHead(t.reviews, t.head) ==>
      exists r :: IsLatest(t.reviews, Lower(FOUNDER), r) && IsTrustedApproval(r, t.head)
  {
    StandingIsLatest(t.reviews, Lower(FOUNDER));
  }
}
