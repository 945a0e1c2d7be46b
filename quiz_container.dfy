/**
 * components/quiz-container.tsx: what the quiz page believes about its user's
 * submission. The page's state variables are the fields of `QuizView`; `View`
 * is their value, and its member functions say what each handler does to it.
 * Server answers reach the page only through a refetch of `GET /api/answers`,
 * given here as a `Fetched` value; a `quiz-reset` event is an outside input.
 */
module QuizContainer {
  import opened Wrappers
  import opened Time
  import opened AnswersStore
  import opened Http
  import AnswersRoute

  /** The characters `String.prototype.trim` removes: ECMAScript white space and line terminators. */
  predicate IsJsWhitespace(c: char)
  {
    c == ' ' || c == '\t' || c == '\n' || c == '\U{000B}' || c == '\U{000C}' || c == '\r'
    || c == '\U{00A0}' || c == '\U{1680}' || ('\U{2000}' <= c <= '\U{200A}')
    || c == '\U{2028}' || c == '\U{2029}' || c == '\U{202F}' || c == '\U{205F}'
    || c == '\U{3000}' || c == '\U{FEFF}'
  }

  function TrimStart(s: string): string
  {
    if s != [] && IsJsWhitespace(s[0]) then TrimStart(s[1..]) else s
  }

  function TrimEnd(s: string): string
  {
    if s != [] && IsJsWhitespace(s[|s| - 1]) then TrimEnd(s[..|s| - 1]) else s
  }

  /** `s.trim()` */
  function Trim(s: string): string
  {
    TrimEnd(TrimStart(s))
  }

  predicate IsBlank(s: string)
  {
    forall i :: 0 <= i < |s| ==> IsJsWhitespace(s[i])
  }

  lemma {:induction false} TrimStartBlank(s: string)
    ensures TrimStart(s) == "" <==> IsBlank(s)
  {
    if s != [] && IsJsWhitespace(s[0]) {
      TrimStartBlank(s[1..]);
      if IsBlank(s[1..]) {
        forall i | 0 <= i < |s| ensures IsJsWhitespace(s[i]) {
          if i > 0 { assert s[i] == s[1..][i - 1]; }
        }
      }
    }
  }

  lemma {:induction false} TrimEndEmpty(s: string)
    ensures TrimEnd(s) == "" <==> IsBlank(s)
  {
    if s != [] && IsJsWhitespace(s[|s| - 1]) {
      TrimEndEmpty(s[..|s| - 1]);
      if IsBlank(s[..|s| - 1]) {
        forall i | 0 <= i < |s| ensures IsJsWhitespace(s[i]) {
          if i < |s| - 1 { assert s[i] == s[..|s| - 1][i]; }
        }
      }
    }
  }

  lemma {:induction false} TrimStartSuffix(s: string)
    ensures IsBlank(TrimStart(s)) ==> IsBlank(s)
    ensures TrimStart(s) == "" || !IsJsWhitespace(TrimStart(s)[0])
  {
    if s != [] && IsJsWhitespace(s[0]) {
      TrimStartSuffix(s[1..]);
      if IsBlank(s[1..]) {
        forall i | 0 <= i < |s| ensures IsJsWhitespace(s[i]) {
          if i > 0 { assert s[i] == s[1..][i - 1]; }
        }
      }
    }
  }

  /** The answer trims to nothing exactly when every character is white space. */
  lemma TrimEmptyIffBlank(s: string)
    ensures Trim(s) == "" <==> IsBlank(s)
  {
    TrimEndEmpty(TrimStart(s));
    TrimStartSuffix(s);
    if IsBlank(s) {
      TrimStartBlank(s);
    }
  }

  /** The outcome of `fetch('/api/answers')`: the active answers, or the failure. */
  type Fetched = Result<seq<Answer>, string>

  /** The settled `POST`: Ok when `response.ok`, otherwise the message the handler alerts. */
  type Posted = Result<(), string>

  /** The payload of a `quiz-reset` event. */
  datatype ResetEvent = ResetEvent(username: Option<string>, resetAll: bool)

  /** The event is for this page: `data.username === username || data.resetAll`. */
  predicate Concerns(e: ResetEvent, username: string)
  {
    e.username == Some(username) || e.resetAll
  }

  /** The page's state variables `userAnswer`, `isSubmitting` and `hasSubmitted`. */
  datatype View = View(userAnswer: string, isSubmitting: bool, hasSubmitted: bool)
  {
    /**
     * The synchronous start of `handleSubmit`: nothing happens when the answer
     * trims to empty or the user has already submitted; otherwise `isSubmitting`
     * becomes true and the `POST` is sent (the boolean).
     */
    function StartSubmit(): (r: (View, bool))
      ensures r.1 <==> !IsBlank(userAnswer) && !hasSubmitted
      ensures !r.1 ==> r.0 == this
      ensures r.1 ==> r.0 == this.(isSubmitting := true)
    {
      TrimEmptyIffBlank(userAnswer);
      if Trim(userAnswer) == "" || hasSubmitted then (this, false)
      else (this.(isSubmitting := true), true)
    }

    /**
     * The end of `handleSubmit`: success clears the field and marks the user as
     * submitted; a failure changes neither and yields the alert text;
     * `isSubmitting` is false in both cases (`finally`).
     */
    function FinishSubmit(posted: Posted): (r: (View, Option<string>))
      ensures !r.0.isSubmitting
      ensures posted.Ok? ==> r.0.userAnswer == "" && r.0.hasSubmitted && r.1 == None
      ensures posted.Err? ==> r.0.userAnswer == userAnswer && r.0.hasSubmitted == hasSubmitted
                              && r.1 == Some(posted.error)
    {
      match posted
      case Ok(_) => (View("", false, true), None)
      case Err(message) => (this.(isSubmitting := false), Some(message))
    }

    /** `checkSubmissionStatus`: `hasSubmitted` is whether the fetched list has an answer by `username`; a failed fetch changes nothing. */
    function CheckSubmissionStatus(username: string, fetched: Fetched): (r: View)
      ensures r.userAnswer == userAnswer && r.isSubmitting == isSubmitting
      ensures fetched.Err? ==> r == this
      ensures fetched.Ok? ==> (r.hasSubmitted <==> exists x :: x in fetched.value && x.username == username)
    {
      match fetched
      case Ok(list) => this.(hasSubmitted := HasEntry(list, username))
      case Err(_) => this
    }

    /**
     * The `quiz-reset` handler: an event for someone else is ignored; otherwise
     * the list is refetched and `hasSubmitted` becomes whether it still holds
     * the user's answer, the input being cleared only when it does not. A failed
     * fetch changes nothing. The payload only decides whether to refetch.
     */
    function OnQuizReset(username: string, e: ResetEvent, fetched: Fetched): (r: View)
      ensures r.isSubmitting == isSubmitting
      ensures !Concerns(e, username) || fetched.Err? ==> r == this
      ensures Concerns(e, username) && fetched.Ok? ==>
        && (r.hasSubmitted <==> exists x :: x in fetched.value && x.username == username)
        && r.userAnswer == if r.hasSubmitted then userAnswer else ""
    {
      if !Concerns(e, username) then this
      else match fetched
        case Err(_) => this
        case Ok(list) =>
          var stillSubmitted := HasEntry(list, username);
          this.(hasSubmitted := stillSubmitted, userAnswer := if stillSubmitted then userAnswer else "")
    }
  }

  /** How the page reads a reply of `POST /api/answers`: `response.ok`, else `errorData.error || …`. */
  function Settle(reply: Reply): (r: Posted)
    ensures r.Err? <==> reply.Failure? && !(200 <= reply.status < 300)
    ensures r.Err? ==> r.error != "" && (reply.message != "" ==> r.error == reply.message)
  {
    match reply
    case Failure(status, message) =>
      if 200 <= status < 300 then Ok(())
      else Err(if message != "" then message else AnswersRoute.SaveFailed)
    case Stored(_, _) => Ok(())
    case Done(_) => Ok(())
  }

  // ---------------------------------------------------------------------------
  // Properties of the handlers

  /** `isSubmitting` is true while a sent request is pending and false once it has settled, whatever the outcome. */
  lemma SubmittingBracketsRequest(v: View, posted: Posted)
    requires v.StartSubmit().1
    ensures v.StartSubmit().0.isSubmitting
    ensures !v.StartSubmit().0.FinishSubmit(posted).0.isSubmitting
    ensures posted.Err? ==> v.StartSubmit().0.FinishSubmit(posted).0 == v.(isSubmitting := false)
  {
  }

  /** For a relevant event the view depends only on the refetched list, never on the rest of the payload. */
  lemma ResetIgnoresPayload(v: View, username: string, e1: ResetEvent, e2: ResetEvent, fetched: Fetched)
    requires Concerns(e1, username) && Concerns(e2, username)
    ensures v.OnQuizReset(username, e1, fetched) == v.OnQuizReset(username, e2, fetched)
  {
  }

  /** Handling the same `quiz-reset` event twice against the same server list gives the view handling it once gives. */
  lemma ResetHandlingIdempotent(v: View, username: string, e: ResetEvent, fetched: Fetched)
    ensures v.OnQuizReset(username, e, fetched).OnQuizReset(username, e, fetched) == v.OnQuizReset(username, e, fetched)
  {
  }

  /** Against the store's list, a status check yields exactly the store's duplicate flag when the store is consistent. */
  lemma StatusMatchesServerFlag(v: View, username: string, s: StoreState)
    requires s.Consistent()
    ensures v.CheckSubmissionStatus(username, Ok(s.answers)).hasSubmitted == s.HasUserSubmitted(username)
  {
    HasEntryIffMatching(s.answers, username);
    assert |Matching(s.answers, username)| == if username in s.userSubmissions then 1 else 0;
  }

  /**
   * A submit answered by `POST /api/answers`: the page ends up showing
   * "already submitted" exactly when the route stored the answer, and then the
   * store holds the user's answer and flag.
   */
  lemma SubmitRoundTrip(v: View, username: string, s: StoreState, now: Timestamp)
    requires v.StartSubmit().1
    ensures var body := Object(map["answer" := Text(v.userAnswer), "username" := Text(username)]);
      var (t, reply) := AnswersRoute.PostResult(s, body, now);
      var w := v.StartSubmit().0.FinishSubmit(Settle(reply)).0;
      && (w.hasSubmitted <==> reply.Stored?)
      && (w.hasSubmitted ==> HasEntry(t.answers, username) && t.HasUserSubmitted(username))
  {
    var body := Object(map["answer" := Text(v.userAnswer), "username" := Text(username)]);
    assert v.userAnswer != "";
    var (t, reply) := AnswersRoute.PostResult(s, body, now);
    if reply.Stored? {
      assert AnswersRoute.WellFormed(body, username);
      assert t.answers[|t.answers| - 1].username == username;
    }
  }

  // ---------------------------------------------------------------------------
  // The page

  class QuizView {
    const username: string
    var userAnswer: string
    var isSubmitting: bool
    var hasSubmitted: bool

    function Abs(): View
      reads this
    {
      View(userAnswer, isSubmitting, hasSubmitted)
    }

    /** The page once `username` has been read from local storage. */
    constructor (username: string)
      ensures this.username == username && Abs() == View("", false, false)
    {
      this.username := username;
      userAnswer := "";
      isSubmitting := false;
      hasSubmitted := false;
    }

    /** The input's `onChange`. */
    method SetUserAnswer(text: string)
      modifies this
      ensures Abs() == old(Abs()).(userAnswer := text)
    {
      userAnswer := text;
    }

    /** `handleSubmit` up to the request: the body it posts, if it posts. */
    method StartSubmit() returns (request: Option<Body>)
      modifies this
      ensures (Abs(), request.Some?) == old(Abs()).StartSubmit()
      ensures request.Some? ==>
        request.value == Object(map["answer" := Text(old(userAnswer)), "username" := Text(username)])
    {
      TrimEmptyIffBlank(userAnswer);
      if Trim(userAnswer) == "" || hasSubmitted {
        return None;
      }
      isSubmitting := true;
      request := Some(Object(map["answer" := Text(userAnswer), "username" := Text(username)]));
    }

    /** `handleSubmit` once the request has settled: the alert it shows, if any. */
    method FinishSubmit(posted: Posted) returns (alert: Option<string>)
      modifies this
      ensures (Abs(), alert) == old(Abs()).FinishSubmit(posted)
    {
      match posted {
        case Ok(_) =>
          userAnswer := "";
          hasSubmitted := true;
          alert := None;
        case Err(message) =>
          alert := Some(message);
      }
      isSubmitting := false;
    }

    method CheckSubmissionStatus(fetched: Fetched)
      modifies this
      ensures Abs() == old(Abs()).CheckSubmissionStatus(username, fetched)
    {
      if fetched.Ok? {
        hasSubmitted := HasEntry(fetched.value, username);
      }
    }

    method OnQuizReset(e: ResetEvent, fetched: Fetched)
      modifies this
      ensures Abs() == old(Abs()).OnQuizReset(username, e, fetched)
    {
      if e.username == Some(username) || e.resetAll {
        if fetched.Ok? {
          var stillSubmitted := HasEntry(fetched.value, username);
          hasSubmitted := stillSubmitted;
          if !stillSubmitted {
            userAnswer := "";
          }
        }
      }
    }
  }
}
