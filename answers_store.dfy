/**
 * The in-memory answer store (lib/answers-store.ts): a counter for ids, the list
 * of active answers, the list of reset answers and the set of users flagged as
 * "has answered". The four module-level variables are the fields of class
 * `Store`; `StoreState` is their value, and its member functions say what each
 * exported function of the store does to it.
 */
module AnswersStore {
  import opened Wrappers
  import opened Time
  import opened Subsequences

  /** An answer record; `resetTimestamp` is set once the answer has been reset. */
  datatype Answer = Answer(id: nat, answer: string, username: string, timestamp: Timestamp,
                           resetTimestamp: Option<Timestamp>)

  /** The answers of `xs` written by `u`, in order (`filter(a => a.username === u)`). */
  function Matching(xs: seq<Answer>, u: string): seq<Answer>
  {
    if xs == [] then []
    else (if xs[0].username == u then [xs[0]] else []) + Matching(xs[1..], u)
  }

  /** The answers of `xs` not written by `u`, in order (`filter(a => a.username !== u)`). */
  function Others(xs: seq<Answer>, u: string): seq<Answer>
  {
    if xs == [] then []
    else (if xs[0].username != u then [xs[0]] else []) + Others(xs[1..], u)
  }

  /** Some answer of `xs` is written by `u` (`xs.some(a => a.username === u)`). */
  predicate HasEntry(xs: seq<Answer>, u: string)
  {
    exists i :: 0 <= i < |xs| && xs[i].username == u
  }

  /** `{ ...answer, resetTimestamp }` applied along `xs`, one clock reading per answer. */
  function Stamp(xs: seq<Answer>, clock: Clock): seq<Answer>
  {
    seq(|xs|, i requires 0 <= i < |xs| => xs[i].(resetTimestamp := Some(clock(i))))
  }

  function IdSeq(xs: seq<Answer>): seq<nat>
  {
    seq(|xs|, i requires 0 <= i < |xs| => xs[i].id)
  }

  /** `a` and `b` are the same submission: id, text, author and submission time agree. */
  predicate SameRecord(a: Answer, b: Answer)
  {
    a.id == b.id && a.answer == b.answer && a.username == b.username && a.timestamp == b.timestamp
  }

  /** `out` is `src`, element by element, with a reset timestamp added to each. */
  predicate ArchivedFrom(out: seq<Answer>, src: seq<Answer>)
  {
    |out| == |src| &&
    forall i :: 0 <= i < |src| ==> SameRecord(out[i], src[i]) && out[i].resetTimestamp.Some?
  }

  /** The value of the store's four module-level variables. */
  datatype StoreState = StoreState(nextId: nat, answers: seq<Answer>, resetAnswers: seq<Answer>,
                                   userSubmissions: set<string>)
  {
    /** Every id in use, active or reset, with its multiplicity. */
    function Ids(): multiset<nat>
    {
      multiset(IdSeq(answers)) + multiset(IdSeq(resetAnswers))
    }

    /** Ids start at 1, are below the counter and are never shared by two records. */
    ghost predicate Valid()
    {
      && 1 <= nextId
      && (forall k :: k in Ids() ==> 1 <= k < nextId)
      && (forall k :: Ids()[k] <= 1)
    }

    /**
     * The invariant the answers routes keep: a user is flagged exactly when the
     * active list holds an answer of theirs, and it holds at most one.
     */
    ghost predicate Consistent()
    {
      forall u :: |Matching(answers, u)| == if u in userSubmissions then 1 else 0
    }

    /** `addAnswer`: the new answer takes the counter's value as id and goes to the end of the active list. */
    function AddAnswer(answer: string, username: string, now: Timestamp): (r: (StoreState, Answer))
      ensures r.0.Ids() == Ids() + multiset{nextId} && r.0.nextId == nextId + 1
    {
      var a := Answer(nextId, answer, username, now, None);
      IdSeqAppend(answers, [a]);
      (this.(nextId := nextId + 1, answers := answers + [a]), a)
    }

    /** `hasUserSubmitted` */
    predicate HasUserSubmitted(username: string)
    {
      username in userSubmissions
    }

    /** `markUserSubmitted` */
    function MarkUserSubmitted(username: string): (r: StoreState)
      ensures r.HasUserSubmitted(username) && r.Ids() == Ids() && r.nextId == nextId
    {
      this.(userSubmissions := userSubmissions + {username})
    }

    /** `resetUserSubmission`: unflag the user and move their active answers, stamped, to the reset list. */
    function ResetUserSubmission(username: string, clock: Clock): (r: StoreState)
      ensures r.Ids() == Ids() && r.nextId == nextId
    {
      SplitByUser(answers, username);
      StampArchives(Matching(answers, username), clock);
      IdSeqAppend(resetAnswers, Stamp(Matching(answers, username), clock));
      this.(userSubmissions := userSubmissions - {username},
            resetAnswers := resetAnswers + Stamp(Matching(answers, username), clock),
            answers := Others(answers, username))
    }

    /** `resetAllUserSubmissions`: move every active answer, stamped, to the reset list and unflag everyone. */
    function ResetAllUserSubmissions(clock: Clock): (r: StoreState)
      ensures r.Ids() == Ids() && r.nextId == nextId
    {
      StampArchives(answers, clock);
      IdSeqAppend(resetAnswers, Stamp(answers, clock));
      this.(resetAnswers := resetAnswers + Stamp(answers, clock),
            userSubmissions := {},
            answers := [])
    }
  }

  /** The store when the server process starts. */
  const Initial := StoreState(1, [], [], {})

  // ---------------------------------------------------------------------------
  // Facts about the list functions

  lemma IdSeqAppend(xs: seq<Answer>, ys: seq<Answer>)
    ensures IdSeq(xs + ys) == IdSeq(xs) + IdSeq(ys)
  {
  }

  lemma IdSeqCons(xs: seq<Answer>)
    requires xs != []
    ensures IdSeq(xs) == [xs[0].id] + IdSeq(xs[1..])
  {
  }

  /** Filtering by author splits a list in two: lengths and ids add back up. */
  lemma {:induction false} SplitByUser(xs: seq<Answer>, u: string)
    ensures |Matching(xs, u)| + |Others(xs, u)| == |xs|
    ensures multiset(IdSeq(Matching(xs, u))) + multiset(IdSeq(Others(xs, u))) == multiset(IdSeq(xs))
  {
    if xs != [] {
      SplitByUser(xs[1..], u);
      IdSeqCons(xs);
      var m, o := Matching(xs[1..], u), Others(xs[1..], u);
      assert multiset(IdSeq(xs)) == multiset{xs[0].id} + multiset(IdSeq(xs[1..]));
      if xs[0].username == u {
        assert Matching(xs, u) == [xs[0]] + m && Others(xs, u) == o;
        IdSeqCons([xs[0]] + m);
        assert ([xs[0]] + m)[1..] == m;
      } else {
        assert Matching(xs, u) == m && Others(xs, u) == [xs[0]] + o;
        IdSeqCons([xs[0]] + o);
        assert ([xs[0]] + o)[1..] == o;
      }
    }
  }

  /** `.some` is true exactly when the filter is not empty. */
  lemma {:induction false} HasEntryIffMatching(xs: seq<Answer>, u: string)
    ensures HasEntry(xs, u) <==> |Matching(xs, u)| > 0
  {
    if xs != [] {
      HasEntryIffMatching(xs[1..], u);
      if HasEntry(xs[1..], u) {
        var i :| 0 <= i < |xs[1..]| && xs[1..][i].username == u;
        assert xs[i + 1].username == u;
      }
      if HasEntry(xs, u) && xs[0].username != u {
        var i :| 0 <= i < |xs| && xs[i].username == u;
        assert xs[1..][i - 1].username == u;
      }
    }
  }

  lemma {:induction false} MatchingAppend(xs: seq<Answer>, ys: seq<Answer>, u: string)
    ensures Matching(xs + ys, u) == Matching(xs, u) + Matching(ys, u)
  {
    if xs != [] {
      assert (xs + ys)[1..] == xs[1..] + ys;
      MatchingAppend(xs[1..], ys, u);
    } else {
      assert xs + ys == ys;
    }
  }

  /** Dropping `u`'s answers leaves no answer of `u` and every other author's answers as they were. */
  lemma {:induction false} OthersKeepsOtherUsers(xs: seq<Answer>, u: string)
    ensures Matching(Others(xs, u), u) == []
    ensures forall v :: v != u ==> Matching(Others(xs, u), v) == Matching(xs, v)
  {
    if xs != [] {
      OthersKeepsOtherUsers(xs[1..], u);
      var head := if xs[0].username != u then [xs[0]] else [];
      forall v ensures Matching(Others(xs, u), v) == Matching(head, v) + Matching(Others(xs[1..], u), v) {
        MatchingAppend(head, Others(xs[1..], u), v);
      }
    }
  }

  /** The filter `a.username === u` keeps exactly the answers by `u`. */
  lemma {:induction false} MatchingMembers(xs: seq<Answer>, u: string, x: Answer)
    ensures x in Matching(xs, u) <==> x in xs && x.username == u
  {
    if xs != [] {
      MatchingMembers(xs[1..], u, x);
      assert xs == [xs[0]] + xs[1..];
    }
  }

  /** The filter `a.username !== u` keeps exactly the answers not by `u`. */
  lemma {:induction false} OthersMembers(xs: seq<Answer>, u: string, x: Answer)
    ensures x in Others(xs, u) <==> x in xs && x.username != u
  {
    if xs != [] {
      OthersMembers(xs[1..], u, x);
      assert xs == [xs[0]] + xs[1..];
    }
  }

  /** The filter by `u` keeps the order of `xs`. */
  lemma {:induction false} MatchingSubsequence(xs: seq<Answer>, u: string)
    ensures IsSubsequence(Matching(xs, u), xs)
  {
    if xs != [] {
      MatchingSubsequence(xs[1..], u);
      var rest := Matching(xs[1..], u);
      SubsequencePrepend(xs[0], rest, xs[1..]);
      assert xs == [xs[0]] + xs[1..];
      if xs[0].username == u {
        assert Matching(xs, u) == [xs[0]] + rest;
      } else {
        assert Matching(xs, u) == rest;
      }
    }
  }

  /** The filter dropping `u` keeps the order of `xs`. */
  lemma {:induction false} OthersSubsequence(xs: seq<Answer>, u: string)
    ensures IsSubsequence(Others(xs, u), xs)
  {
    if xs != [] {
      OthersSubsequence(xs[1..], u);
      var rest := Others(xs[1..], u);
      SubsequencePrepend(xs[0], rest, xs[1..]);
      assert xs == [xs[0]] + xs[1..];
      if xs[0].username != u {
        assert Others(xs, u) == [xs[0]] + rest;
      } else {
        assert Others(xs, u) == rest;
      }
    }
  }

  /** A user without an entry is untouched by both filters. */
  lemma {:induction false} NoEntryFilters(xs: seq<Answer>, u: string)
    requires !HasEntry(xs, u)
    ensures Matching(xs, u) == []
    ensures Others(xs, u) == xs
  {
    if xs != [] {
      assert xs[0].username != u;
      NoEntryFilters(xs[1..], u);
      assert xs == [xs[0]] + xs[1..];
    }
  }

  lemma StampArchives(xs: seq<Answer>, clock: Clock)
    ensures ArchivedFrom(Stamp(xs, clock), xs)
    ensures IdSeq(Stamp(xs, clock)) == IdSeq(xs)
  {
  }

  /** Two positions holding the same value make its multiplicity at least two. */
  lemma {:induction false} RepeatedValue(s: seq<nat>, i: nat, j: nat)
    requires i < j < |s| && s[i] == s[j]
    ensures multiset(s)[s[i]] >= 2
  {
    assert s == s[..j] + [s[j]] + s[j + 1..];
    assert s[i] in multiset(s[..j]) by {
      assert s[..j][i] == s[i];
    }
  }

  // ---------------------------------------------------------------------------
  // Properties of the store operations

  /**
   * `addAnswer` takes the counter's value as the new id and bumps the counter, so
   * ids stay distinct and below the counter; only the active list changes, by
   * exactly the new answer at its end.
   */
  lemma AddAnswerIssuesFreshId(s: StoreState, answer: string, username: string, now: Timestamp)
    requires s.Valid()
    ensures var (t, a) := s.AddAnswer(answer, username, now);
      && t.Valid()
      && a.id == s.nextId && a.id !in s.Ids() && t.nextId == s.nextId + 1
      && a.answer == answer && a.username == username && a.timestamp == now
      && a.resetTimestamp == None
      && t.answers == s.answers + [a]
      && t.resetAnswers == s.resetAnswers && t.userSubmissions == s.userSubmissions
  {
    var (t, a) := s.AddAnswer(answer, username, now);
    IdSeqAppend(s.answers, [a]);
    assert t.Ids() == s.Ids() + multiset{a.id};
  }

  /** The accepting path of both answer routes, `addAnswer` then `markUserSubmitted` for an unflagged user, keeps both invariants. */
  lemma AcceptKeepsInvariant(s: StoreState, answer: string, u: string, now: Timestamp)
    requires s.Valid() && s.Consistent() && !s.HasUserSubmitted(u)
    ensures s.AddAnswer(answer, u, now).0.MarkUserSubmitted(u).Valid()
    ensures s.AddAnswer(answer, u, now).0.MarkUserSubmitted(u).Consistent()
  {
    AddAnswerIssuesFreshId(s, answer, u, now);
    var (t, a) := s.AddAnswer(answer, u, now);
    var w := t.MarkUserSubmitted(u);
    assert w.Ids() == t.Ids();
    forall v ensures |Matching(w.answers, v)| == if v in w.userSubmissions then 1 else 0 {
      MatchingAppend(s.answers, [a], v);
      assert [a][1..] == [];
      assert Matching([a], v) == if v == u then [a] else [];
      assert |Matching(s.answers, v)| == if v in s.userSubmissions then 1 else 0;
    }
  }

  /** Under `Valid`, no two records, active or reset, share an id, and every id is below `nextId`. */
  lemma DistinctIds(s: StoreState)
    requires s.Valid()
    ensures var all := s.answers + s.resetAnswers;
      forall i :: 0 <= i < |all| ==> 1 <= all[i].id < s.nextId
    ensures var all := s.answers + s.resetAnswers;
      forall i, j :: 0 <= i < |all| && 0 <= j < |all| && i != j ==> all[i].id != all[j].id
  {
    var all := s.answers + s.resetAnswers;
    IdSeqAppend(s.answers, s.resetAnswers);
    assert multiset(IdSeq(all)) == s.Ids();
    forall i | 0 <= i < |all| ensures 1 <= all[i].id < s.nextId {
      assert IdSeq(all)[i] == all[i].id;
      assert all[i].id in multiset(IdSeq(all));
    }
    forall i, j | 0 <= i < |all| && 0 <= j < |all| && i != j
      ensures all[i].id != all[j].id
    {
      if all[i].id == all[j].id {
        if i < j { RepeatedValue(IdSeq(all), i, j); } else { RepeatedValue(IdSeq(all), j, i); }
      }
    }
  }

  /** `markUserSubmitted(u)` flags `u` and leaves every other flag and both lists as they were. */
  lemma MarkUserSubmittedFlags(s: StoreState, u: string, v: string)
    ensures s.MarkUserSubmitted(u).HasUserSubmitted(v) <==> v == u || s.HasUserSubmitted(v)
    ensures s.MarkUserSubmitted(u).answers == s.answers
    ensures s.MarkUserSubmitted(u).resetAnswers == s.resetAnswers
  {
  }

  /**
   * `resetUserSubmission(u)`: `u` is unflagged and has no active answer; the
   * active list keeps exactly the other authors' answers, in their old order;
   * every other author's flag is as before; `u`'s former answers
   * follow the untouched earlier reset entries, in order, each the same record
   * with a reset stamp; no record is lost or created, and the counter is kept.
   */
  lemma ResetUserSubmissionEffect(s: StoreState, u: string, clock: Clock)
    ensures var t := s.ResetUserSubmission(u, clock);
      && !t.HasUserSubmitted(u)
      && !HasEntry(t.answers, u)
      && (forall x :: x in t.answers <==> x in s.answers && x.username != u)
      && IsSubsequence(t.answers, s.answers)
      && (forall v :: v != u ==> Matching(t.answers, v) == Matching(s.answers, v))
      && (forall v :: v != u ==> (t.HasUserSubmitted(v) <==> s.HasUserSubmitted(v)))
      && t.resetAnswers[..|s.resetAnswers|] == s.resetAnswers
      && ArchivedFrom(t.resetAnswers[|s.resetAnswers|..], Matching(s.answers, u))
      && |t.answers| + |t.resetAnswers| == |s.answers| + |s.resetAnswers|
      && t.nextId == s.nextId
  {
    var t := s.ResetUserSubmission(u, clock);
    OthersKeepsOtherUsers(s.answers, u);
    OthersSubsequence(s.answers, u);
    forall x ensures x in t.answers <==> x in s.answers && x.username != u {
      OthersMembers(s.answers, u, x);
    }
    HasEntryIffMatching(t.answers, u);
    SplitByUser(s.answers, u);
    StampArchives(Matching(s.answers, u), clock);
    assert t.resetAnswers[|s.resetAnswers|..] == Stamp(Matching(s.answers, u), clock);
  }

  /** `resetUserSubmission(u)` for a user without an active answer leaves both lists as they were. */
  lemma ResetUserSubmissionNoOp(s: StoreState, u: string, clock: Clock)
    requires !HasEntry(s.answers, u)
    ensures s.ResetUserSubmission(u, clock).answers == s.answers
    ensures s.ResetUserSubmission(u, clock).resetAnswers == s.resetAnswers
  {
    NoEntryFilters(s.answers, u);
  }

  /**
   * `resetAllUserSubmissions`: nothing active, nobody flagged; the reset list is
   * the old one followed by every old active answer, in order, each stamped;
   * the counter is kept, so no id is handed out twice.
   */
  lemma ResetAllUserSubmissionsEffect(s: StoreState, clock: Clock)
    ensures var t := s.ResetAllUserSubmissions(clock);
      && t.answers == []
      && (forall v :: !t.HasUserSubmitted(v))
      && t.resetAnswers[..|s.resetAnswers|] == s.resetAnswers
      && ArchivedFrom(t.resetAnswers[|s.resetAnswers|..], s.answers)
      && |t.answers| + |t.resetAnswers| == |s.answers| + |s.resetAnswers|
      && t.nextId == s.nextId
  {
    var t := s.ResetAllUserSubmissions(clock);
    StampArchives(s.answers, clock);
    assert t.resetAnswers[|s.resetAnswers|..] == Stamp(s.answers, clock);
  }

  /** Both resets move records without creating or copying ids, so `Valid` is kept. */
  lemma ResetsKeepValid(s: StoreState, u: string, clock: Clock)
    requires s.Valid()
    ensures s.ResetUserSubmission(u, clock).Valid()
    ensures s.ResetAllUserSubmissions(clock).Valid()
  {
    var m := Matching(s.answers, u);
    SplitByUser(s.answers, u);
    StampArchives(m, clock);
    IdSeqAppend(s.resetAnswers, Stamp(m, clock));
    assert s.ResetUserSubmission(u, clock).Ids() == s.Ids();
    StampArchives(s.answers, clock);
    IdSeqAppend(s.resetAnswers, Stamp(s.answers, clock));
    assert s.ResetAllUserSubmissions(clock).Ids() == s.Ids();
  }

  /** Both resets keep the flag-iff-one-active-answer invariant. */
  lemma ResetsKeepConsistent(s: StoreState, u: string, clock: Clock)
    requires s.Consistent()
    ensures s.ResetUserSubmission(u, clock).Consistent()
    ensures s.ResetAllUserSubmissions(clock).Consistent()
  {
    var t := s.ResetUserSubmission(u, clock);
    OthersKeepsOtherUsers(s.answers, u);
    forall v ensures |Matching(t.answers, v)| == if v in t.userSubmissions then 1 else 0 {
      if v != u {
        assert Matching(t.answers, v) == Matching(s.answers, v);
        assert |Matching(s.answers, v)| == if v in s.userSubmissions then 1 else 0;
      }
    }
  }

  /** Resetting the same user twice, or everyone twice, changes neither list the second time. */
  lemma ResetTwiceIsNoOp(s: StoreState, u: string, c1: Clock, c2: Clock)
    ensures var t := s.ResetUserSubmission(u, c1);
      t.ResetUserSubmission(u, c2).answers == t.answers &&
      t.ResetUserSubmission(u, c2).resetAnswers == t.resetAnswers
    ensures var t := s.ResetAllUserSubmissions(c1);
      t.ResetAllUserSubmissions(c2).answers == t.answers &&
      t.ResetAllUserSubmissions(c2).resetAnswers == t.resetAnswers
  {
    var t := s.ResetUserSubmission(u, c1);
    OthersKeepsOtherUsers(s.answers, u);
    HasEntryIffMatching(t.answers, u);
    ResetUserSubmissionNoOp(t, u, c2);
    var w := s.ResetAllUserSubmissions(c1);
    assert Stamp(w.answers, c2) == [];
  }

  // ---------------------------------------------------------------------------
  // The store itself

  /** The module-level state of lib/answers-store.ts. */
  class Store {
    var nextId: nat
    var answers: seq<Answer>
    var resetAnswers: seq<Answer>
    var userSubmissions: set<string>

    function Abs(): StoreState
      reads this
    {
      StoreState(nextId, answers, resetAnswers, userSubmissions)
    }

    constructor ()
      ensures Abs() == Initial
      ensures Abs().Valid() && Abs().Consistent()
    {
      nextId := 1;
      answers := [];
      resetAnswers := [];
      userSubmissions := {};
    }

    method AddAnswer(answer: string, username: string, now: Timestamp) returns (a: Answer)
      modifies this
      ensures (Abs(), a) == old(Abs()).AddAnswer(answer, username, now)
    {
      a := Answer(nextId, answer, username, now, None);
      nextId := nextId + 1;
      answers := answers + [a];
    }

    /** `getAnswers`: a copy of the active list; nothing changes. */
    method GetAnswers() returns (r: seq<Answer>)
      ensures r == answers
    {
      r := answers;
    }

    /** `getResetAnswers`: a copy of the reset list; nothing changes. */
    method GetResetAnswers() returns (r: seq<Answer>)
      ensures r == resetAnswers
    {
      r := resetAnswers;
    }

    method MarkUserSubmitted(username: string)
      modifies this
      ensures Abs() == old(Abs()).MarkUserSubmitted(username)
    {
      userSubmissions := userSubmissions + {username};
    }

    /** `hasUserSubmitted`: reads the flag; nothing changes. */
    method HasUserSubmitted(username: string) returns (b: bool)
      ensures b == Abs().HasUserSubmitted(username)
    {
      b := username in userSubmissions;
    }

    method ResetUserSubmission(username: string, clock: Clock)
      modifies this
      ensures Abs() == old(Abs()).ResetUserSubmission(username, clock)
    {
      userSubmissions := userSubmissions - {username};
      var userAnswers := Matching(answers, username);
      resetAnswers := resetAnswers + Stamp(userAnswers, clock);
      answers := Others(answers, username);
    }

    method ResetAllUserSubmissions(clock: Clock)
      modifies this
      ensures Abs() == old(Abs()).ResetAllUserSubmissions(clock)
    {
      resetAnswers := resetAnswers + Stamp(answers, clock);
      userSubmissions := {};
      answers := [];
    }
  }
}
