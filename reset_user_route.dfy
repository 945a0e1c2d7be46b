/** app/api/reset-user/route.ts: the admin's reset of one user or of everyone. */
module ResetUserRoute {
  import opened Wrappers
  import opened Time
  import opened AnswersStore
  import opened Http
  import AnswersRoute

  const AllReset := "Alle Benutzer wurden zurückgesetzt"
  const UsernameRequired := "Benutzername ist erforderlich"
  const ResetFailed := "Fehler beim Zurücksetzen des Benutzers"

  function UserReset(name: string): string
  {
    "Benutzer " + name + " wurde zurückgesetzt"
  }

  /**
   * `POST`: a truthy `resetAll` resets everyone whatever `username` holds; else a
   * falsy `username` is refused and nothing changes; else that user is reset and
   * success is reported, whether or not they had an answer.
   */
  function ResetResult(s: StoreState, body: Body, clock: Clock): (r: (StoreState, Reply))
    ensures r.1.Failure? ==> r.0 == s
    ensures body.Unreadable? ==> r.1 == Failure(500, ResetFailed)
    ensures body.Object? && Truthy(Field(body, "resetAll")) ==>
              r == (s.ResetAllUserSubmissions(clock), Done(AllReset))
    ensures body.Object? && !Truthy(Field(body, "resetAll")) && !Truthy(Field(body, "username")) ==>
              r.1 == Failure(400, UsernameRequired)
    ensures body.Object? && !Truthy(Field(body, "resetAll")) && Truthy(Field(body, "username")) ==>
              var u := Key(Field(body, "username").value);
              r == (s.ResetUserSubmission(u, clock), Done(UserReset(u)))
  {
    if body.Unreadable? then (s, Failure(500, ResetFailed))
    else if Truthy(Field(body, "resetAll")) then (s.ResetAllUserSubmissions(clock), Done(AllReset))
    else
      var username := Field(body, "username");
      if !Truthy(username) then (s, Failure(400, UsernameRequired))
      else
        var u := Key(username.value);
        (s.ResetUserSubmission(u, clock), Done(UserReset(u)))
  }

  method Post(store: Store, body: Body, clock: Clock) returns (reply: Reply)
    modifies store
    ensures (store.Abs(), reply) == ResetResult(old(store.Abs()), body, clock)
  {
    if body.Unreadable? {
      return Failure(500, ResetFailed);
    }
    if Truthy(Field(body, "resetAll")) {
      store.ResetAllUserSubmissions(clock);
      return Done(AllReset);
    }
    var username := Field(body, "username");
    if !Truthy(username) {
      return Failure(400, UsernameRequired);
    }
    var u := Key(username.value);
    store.ResetUserSubmission(u, clock);
    reply := Done(UserReset(u));
  }

  /** Every reset request keeps the store's id discipline and the flag-iff-one-active-answer invariant. */
  lemma ResetKeepsInvariant(s: StoreState, body: Body, clock: Clock)
    requires s.Valid() && s.Consistent()
    ensures ResetResult(s, body, clock).0.Valid()
    ensures ResetResult(s, body, clock).0.Consistent()
  {
    var u := if Field(body, "username").Some? then Key(Field(body, "username").value) else "";
    ResetsKeepValid(s, u, clock);
    ResetsKeepConsistent(s, u, clock);
  }

  /** After a single-user reset, a well-formed `POST /api/answers` for that user is accepted. */
  lemma ResetThenPostAccepted(s: StoreState, u: string, clock: Clock, post: Body, now: Timestamp)
    requires AnswersRoute.WellFormed(post, u)
    ensures var t := ResetResult(s, Object(map["username" := Text(u)]), clock).0;
      AnswersRoute.PostResult(t, post, now).1.Stored?
  {
  }

  /** Sending the same reset request twice changes neither list the second time. */
  lemma RepeatedResetIsNoOp(s: StoreState, body: Body, c1: Clock, c2: Clock)
    ensures var t := ResetResult(s, body, c1).0;
      ResetResult(t, body, c2).0.answers == t.answers &&
      ResetResult(t, body, c2).0.resetAnswers == t.resetAnswers
  {
    var u := if Field(body, "username").Some? then Key(Field(body, "username").value) else "";
    ResetTwiceIsNoOp(s, u, c1, c2);
  }

  // ---------------------------------------------------------------------------
  // The single-user reset as written, for a `username` of any JSON type

  /**
   * `resetUserSubmission(username)` with the request's raw value, over a store
   * whose usernames are strings (as the answers route stores them). The flag is
   * deleted under the value's key form, but both filters compare the raw value
   * with `===`, so a value that is not a string matches no answer and nothing
   * is moved.
   */
  function ResetByRawValue(s: StoreState, v: Value, clock: Clock): (r: StoreState)
    ensures !r.HasUserSubmitted(Key(v))
    ensures forall u :: u != Key(v) ==> (r.HasUserSubmitted(u) <==> s.HasUserSubmitted(u))
    ensures r.Ids() == s.Ids() && r.nextId == s.nextId
    ensures v.Other? ==> r.answers == s.answers && r.resetAnswers == s.resetAnswers
  {
    match v
    case Text(u) => s.ResetUserSubmission(u, clock)
    case Other(_, key) => s.(userSubmissions := s.userSubmissions - {key})
  }

  /** The reset route as written; it agrees with `ResetResult` unless `username` is needed and is not a string. */
  function ResetResultAsWritten(s: StoreState, body: Body, clock: Clock): (r: (StoreState, Reply))
    ensures Truthy(Field(body, "resetAll")) || Field(body, "username").None? || Field(body, "username").value.Text?
            ==> r == ResetResult(s, body, clock)
  {
    if body.Unreadable? then (s, Failure(500, ResetFailed))
    else if Truthy(Field(body, "resetAll")) then (s.ResetAllUserSubmissions(clock), Done(AllReset))
    else
      var username := Field(body, "username");
      if !Truthy(username) then (s, Failure(400, UsernameRequired))
      else (ResetByRawValue(s, username.value, clock), Done(UserReset(Key(username.value))))
  }

  /**
   * Resetting a user who has an active answer with a non-string `username` of
   * the same key form unflags them but leaves their answer active: the store
   * is no longer consistent, and a further well-formed `POST /api/answers` by
   * them is stored, giving them two active answers. The corrected reset moves
   * the answer.
   */
  lemma RawResetBreaksConsistency(s: StoreState, key: string, clock: Clock, post: Body, now: Timestamp)
    requires s.Consistent() && HasEntry(s.answers, key)
    requires AnswersRoute.WellFormed(post, key)
    ensures var body := Object(map["username" := Other(true, key)]);
      var t := ResetResultAsWritten(s, body, clock).0;
      && t.answers == s.answers && !t.HasUserSubmitted(key)
      && !t.Consistent()
      && AnswersRoute.PostResult(t, post, now).1.Stored?
      && |Matching(AnswersRoute.PostResult(t, post, now).0.answers, key)| == 2
      && !HasEntry(ResetResult(s, body, clock).0.answers, key)
  {
    var body := Object(map["username" := Other(true, key)]);
    assert Field(body, "username") == Some(Other(true, key));
    assert Field(body, "resetAll") == None;
    var t := ResetResultAsWritten(s, body, clock).0;
    assert t == s.(userSubmissions := s.userSubmissions - {key});
    HasEntryIffMatching(s.answers, key);
    assert |Matching(s.answers, key)| == if key in s.userSubmissions then 1 else 0;
    assert |Matching(t.answers, key)| != if key in t.userSubmissions then 1 else 0;
    var (w, reply) := AnswersRoute.PostResult(t, post, now);
    MatchingAppend(t.answers, [reply.answer], key);
    assert [reply.answer][1..] == [];
    ResetUserSubmissionEffect(s, key, clock);
  }
}
