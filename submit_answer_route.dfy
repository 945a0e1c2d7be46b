/**
 * app/api/submit-answer/route.ts: a second submission route over the same store.
 * It only tests truthiness (no `typeof` check) and answers a duplicate with 400,
 * not 403; an accepted answer is reported with 201.
 */
module SubmitAnswerRoute {
  import opened Wrappers
  import opened Time
  import opened AnswersStore
  import opened Http
  import AnswersRoute

  const Required := "Username and answer are required"
  const AlreadySubmitted := "You have already submitted an answer"
  const SubmitFailed := "Error submitting answer"

  /**
   * `POST`: both fields must be truthy, then the user must not be flagged. Every
   * rejection leaves the store as it was, so no id is consumed; an accepted
   * answer is the one new entry of the active list and its author is flagged.
   * A value that is not a string takes its key form (`String(v)`).
   */
  function SubmitResult(s: StoreState, body: Body, now: Timestamp): (r: (StoreState, Reply))
    ensures r.1.Failure? ==> r.0 == s
    ensures body.Unreadable? ==> r.1 == Failure(500, SubmitFailed)
    ensures body.Object? && (!Truthy(Field(body, "username")) || !Truthy(Field(body, "answer")))
            ==> r.1 == Failure(400, Required)
    ensures body.Object? && Truthy(Field(body, "username")) && Truthy(Field(body, "answer")) ==>
              var u := Key(Field(body, "username").value);
              if s.HasUserSubmitted(u) then r.1 == Failure(400, AlreadySubmitted)
              else
                && r.1.Stored? && r.1.status == 201
                && r.1.answer.username == u
                && r.1.answer.answer == Key(Field(body, "answer").value)
                && r.1.answer.id == s.nextId && r.1.answer.timestamp == now
                && r.1.answer.resetTimestamp == None
                && r.0.nextId == s.nextId + 1
                && r.0.answers == s.answers + [r.1.answer]
                && r.0.resetAnswers == s.resetAnswers
                && r.0.userSubmissions == s.userSubmissions + {u}
  {
    if body.Unreadable? then (s, Failure(500, SubmitFailed))
    else
      var username := Field(body, "username");
      var answer := Field(body, "answer");
      if !Truthy(username) || !Truthy(answer) then (s, Failure(400, Required))
      else
        var u := Key(username.value);
        if s.HasUserSubmitted(u) then (s, Failure(400, AlreadySubmitted))
        else
          var (t, a) := s.AddAnswer(Key(answer.value), u, now);
          (t.MarkUserSubmitted(u), Stored(201, a))
  }

  method Post(store: Store, body: Body, now: Timestamp) returns (reply: Reply)
    modifies store
    ensures (store.Abs(), reply) == SubmitResult(old(store.Abs()), body, now)
  {
    if body.Unreadable? {
      return Failure(500, SubmitFailed);
    }
    var username := Field(body, "username");
    var answer := Field(body, "answer");
    if !Truthy(username) || !Truthy(answer) {
      return Failure(400, Required);
    }
    var u := Key(username.value);
    var flagged := store.HasUserSubmitted(u);
    if flagged {
      return Failure(400, AlreadySubmitted);
    }
    var a := store.AddAnswer(Key(answer.value), u, now);
    store.MarkUserSubmitted(u);
    reply := Stored(201, a);
  }

  /** The submit route keeps the store's id discipline and the flag-iff-one-active-answer invariant. */
  lemma SubmitKeepsInvariant(s: StoreState, body: Body, now: Timestamp)
    requires s.Valid() && s.Consistent()
    ensures SubmitResult(s, body, now).0.Valid()
    ensures SubmitResult(s, body, now).0.Consistent()
  {
    var username := Field(body, "username");
    var answer := Field(body, "answer");
    if body.Object? && Truthy(username) && Truthy(answer) && !s.HasUserSubmitted(Key(username.value)) {
      var u := Key(username.value);
      AcceptKeepsInvariant(s, Key(answer.value), u, now);
      assert SubmitResult(s, body, now).0 == s.AddAnswer(Key(answer.value), u, now).0.MarkUserSubmitted(u);
    }
  }

  /**
   * The two routes disagree on a truthy value that is not a string: the answers
   * route refuses it with 400, the submit route stores it under its key form.
   */
  lemma NonStringUsernameAccepted(s: StoreState, answer: string, other: Value, now: Timestamp)
    requires answer != "" && other.Other? && other.truthy && !s.HasUserSubmitted(other.key)
    ensures var body := Object(map["answer" := Text(answer), "username" := other]);
      && AnswersRoute.PostResult(s, body, now).1 == Failure(400, AnswersRoute.UsernameRequired)
      && SubmitResult(s, body, now).1.Stored?
      && SubmitResult(s, body, now).1.answer.username == other.key
  {
    var body := Object(map["answer" := Text(answer), "username" := other]);
    assert Field(body, "answer") == Some(Text(answer));
    assert Field(body, "username") == Some(other);
  }
}
