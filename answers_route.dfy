/** app/api/answers/route.ts: the route the quiz page posts to and the admin page reads from. */
module AnswersRoute {
  import opened Wrappers
  import opened Time
  import opened AnswersStore
  import opened Http

  const AnswerRequired := "Antwort ist erforderlich"
  const UsernameRequired := "Benutzername ist erforderlich"
  const AlreadyAnswered := "Du hast bereits eine Antwort abgegeben"
  const SaveFailed := "Fehler beim Speichern der Antwort"

  /** The body passes both field checks of `POST` with this username. */
  predicate WellFormed(body: Body, username: string)
  {
    IsNonEmptyText(Field(body, "answer")) && Field(body, "username") == Some(Text(username)) && username != ""
  }

  /**
   * `POST`: the new store and the reply. The answer is checked first, then the
   * username, then the duplicate flag; every rejection leaves the store as it
   * was, and an accepted answer is the one new entry of the active list.
   */
  function PostResult(s: StoreState, body: Body, now: Timestamp): (r: (StoreState, Reply))
    ensures r.1.Failure? ==> r.0 == s
    ensures body.Unreadable? ==> r.1 == Failure(500, SaveFailed)
    ensures body.Object? && !IsNonEmptyText(Field(body, "answer")) ==> r.1 == Failure(400, AnswerRequired)
    ensures body.Object? && IsNonEmptyText(Field(body, "answer")) && !IsNonEmptyText(Field(body, "username"))
            ==> r.1 == Failure(400, UsernameRequired)
    ensures forall u :: WellFormed(body, u) ==>
              (r.1 == Failure(403, AlreadyAnswered) <==> s.HasUserSubmitted(u))
    ensures forall u :: WellFormed(body, u) && !s.HasUserSubmitted(u) ==>
              && r.1.Stored? && r.1.status == 200
              && r.1.answer.username == u && r.1.answer.answer == Field(body, "answer").value.text
              && r.1.answer.id == s.nextId && r.1.answer.timestamp == now
              && r.1.answer.resetTimestamp == None
              && r.0.nextId == s.nextId + 1
              && r.0.answers == s.answers + [r.1.answer]
              && r.0.resetAnswers == s.resetAnswers
              && r.0.userSubmissions == s.userSubmissions + {u}
  {
    if body.Unreadable? then (s, Failure(500, SaveFailed))
    else
      var answer := Field(body, "answer");
      var username := Field(body, "username");
      if !IsNonEmptyText(answer) then (s, Failure(400, AnswerRequired))
      else if !IsNonEmptyText(username) then (s, Failure(400, UsernameRequired))
      else if s.HasUserSubmitted(username.value.text) then (s, Failure(403, AlreadyAnswered))
      else
        var (t, a) := s.AddAnswer(answer.value.text, username.value.text, now);
        (t.MarkUserSubmitted(username.value.text), Stored(200, a))
  }

  method Post(store: Store, body: Body, now: Timestamp) returns (reply: Reply)
    modifies store
    ensures (store.Abs(), reply) == PostResult(old(store.Abs()), body, now)
  {
    if body.Unreadable? {
      return Failure(500, SaveFailed);
    }
    var answer := Field(body, "answer");
    var username := Field(body, "username");
    if !IsNonEmptyText(answer) {
      return Failure(400, AnswerRequired);
    }
    if !IsNonEmptyText(username) {
      return Failure(400, UsernameRequired);
    }
    var flagged := store.HasUserSubmitted(username.value.text);
    if flagged {
      return Failure(403, AlreadyAnswered);
    }
    var a := store.AddAnswer(answer.value.text, username.value.text, now);
    store.MarkUserSubmitted(username.value.text);
    reply := Stored(200, a);
  }

  /** `GET`: both lists as they stand; nothing changes. */
  method Get(store: Store) returns (answers: seq<Answer>, resetAnswers: seq<Answer>)
    ensures answers == store.answers && resetAnswers == store.resetAnswers
  {
    answers := store.GetAnswers();
    resetAnswers := store.GetResetAnswers();
  }

  /** `POST` keeps the store's id discipline and the flag-iff-one-active-answer invariant. */
  lemma PostKeepsInvariant(s: StoreState, body: Body, now: Timestamp)
    requires s.Valid() && s.Consistent()
    ensures PostResult(s, body, now).0.Valid()
    ensures PostResult(s, body, now).0.Consistent()
  {
    var answer := Field(body, "answer");
    var username := Field(body, "username");
    if body.Object? && IsNonEmptyText(answer) && IsNonEmptyText(username)
       && !s.HasUserSubmitted(username.value.text)
    {
      var u := username.value.text;
      AcceptKeepsInvariant(s, answer.value.text, u, now);
      assert PostResult(s, body, now).0 == s.AddAnswer(answer.value.text, u, now).0.MarkUserSubmitted(u);
    }
  }

  /** With no reset in between, a second well-formed `POST` for the same username is refused with 403. */
  lemma SecondPostRefused(s: StoreState, b1: Body, b2: Body, u: string, now1: Timestamp, now2: Timestamp)
    requires WellFormed(b1, u) && WellFormed(b2, u)
    ensures PostResult(PostResult(s, b1, now1).0, b2, now2).1 == Failure(403, AlreadyAnswered)
  {
  }
}
