/** One run of the form script: the fingerprint check, then at most one
    button press, then the request the press would send to the agent. */
module App {
  import opened Wrappers
  import opened Text
  import opened Questions
  import opened Intake
  import opened Record

  /** `st.session_state`: emptied by `clear()`, or holding the stored
      fingerprint together with the intake session. */
  datatype Store = Cleared | Stored(fingerprint: string, session: Session)

  /** What the user did in this run: nothing, "Next" with the text box
      content, "Generate Marketing Plan", or "Start Over". */
  datatype Event = Idle | Next(answer: string) | Generate | StartOver

  /** The record handed to the agent, or the `KeyError` raised while
      building it. */
  datatype Request = NoRequest | Request(info: BusinessInfo) | Crash(error: BuildError)

  datatype Outcome = Outcome(store: Store, request: Request)

  /** The session is valid for the current question list. */
  predicate StoreInv(store: Store) {
    store.Stored? ==> Inv(QUESTIONS, store.session)
  }

  /** The check at the top of every run: a store whose fingerprint is not
      `current` (including a cleared one) is replaced by a fresh session. */
  function CheckFingerprint(store: Store, current: string): (r: Store)
    ensures r.Stored? && r.fingerprint == current
    ensures store.Stored? && store.fingerprint == current ==> r == store
    ensures !(store.Stored? && store.fingerprint == current) ==> r.session == Initial
  {
    if store.Stored? && store.fingerprint == current then store else Stored(current, Initial)
  }

  /** One run of the script with `current` the fingerprint of the question
      list being served. */
  function Run(store: Store, current: string, event: Event): (r: Outcome)
    ensures r.store == Cleared <==> event.StartOver?
    ensures !event.Next? && !event.StartOver? ==> r.store == CheckFingerprint(store, current)
    ensures event.Next? ==>
      r.store == Stored(current, Submit(QUESTIONS, CheckFingerprint(store, current).session, event.answer))
    ensures !r.request.NoRequest? ==>
      event.Generate? && Complete(QUESTIONS, CheckFingerprint(store, current).session)
    ensures r.request.Request? ==>
      Build(CheckFingerprint(store, current).session.answers) == Success(r.request.info)
  {
    var st := CheckFingerprint(store, current);
    var s := st.session;
    match event
    case Idle => Outcome(st, NoRequest)
    case Next(answer) => Outcome(Stored(current, Submit(QUESTIONS, s, answer)), NoRequest)
    case Generate =>
      if !Complete(QUESTIONS, s) then Outcome(st, NoRequest)
      else
        (match Build(s.answers)
         case Success(info) => Outcome(st, Request(info))
         case Failure(e) => Outcome(st, Crash(e)))
    case StartOver => Outcome(Cleared, NoRequest)
  }

  /** Every run keeps the store valid, and a valid store never crashes while
      building the record. */
  lemma RunPreservesInv(store: Store, current: string, event: Event)
    requires StoreInv(store)
    ensures StoreInv(Run(store, current, event).store)
    ensures !Run(store, current, event).request.Crash?
  {
    var st := CheckFingerprint(store, current);
    InitialInv(QUESTIONS);
    assert Inv(QUESTIONS, st.session);
    match event
    case Next(answer) => SubmitPreservesInv(QUESTIONS, st.session, answer);
    case Generate =>
      if Complete(QUESTIONS, st.session) {
        BuildComplete(st.session);
      }
    case _ =>
  }

  /** A complete session stays complete and untouched by every run except
      "Start Over" or a change of question list. */
  lemma CompleteUntilReset(fp: string, s: Session, event: Event)
    requires Complete(QUESTIONS, s) && !event.StartOver?
    ensures Run(Stored(fp, s), fp, event).store == Stored(fp, s)
  {
  }

  /** Without "Start Over" and with the same question list, no run takes
      the step back or changes a recorded answer. */
  lemma StepNeverDecreases(fp: string, s: Session, event: Event)
    requires Inv(QUESTIONS, s) && !event.StartOver?
    ensures Run(Stored(fp, s), fp, event).store.Stored?
    ensures Run(Stored(fp, s), fp, event).store.session.step >= s.step
    ensures forall q :: q in s.answers ==>
      q in Run(Stored(fp, s), fp, event).store.session.answers
      && Run(Stored(fp, s), fp, event).store.session.answers[q] == s.answers[q]
  {
    if event.Next? {
      QuestionsDistinct();
      SubmitKeepsRecorded(QUESTIONS, s, event.answer);
    }
  }

  /** "Generate" on a complete valid session sends the record whose field
      `i` is the answer to question `i`, and changes nothing. */
  lemma GenerateSendsRecord(fp: string, s: Session)
    requires Inv(QUESTIONS, s) && Complete(QUESTIONS, s)
    ensures Run(Stored(fp, s), fp, Generate).store == Stored(fp, s)
    ensures Run(Stored(fp, s), fp, Generate).request.Request?
    ensures forall i :: 0 <= i < N ==>
      Fields(Run(Stored(fp, s), fp, Generate).request.info)[i] == s.answers[QUESTIONS[i]]
  {
    BuildComplete(s);
  }

  /** "Start Over" clears the state, and the next run starts a fresh session
      whatever the state was before. */
  lemma StartOverResets(store: Store, current: string, next: string)
    ensures Run(store, current, StartOver).store == Cleared
    ensures Run(Run(store, current, StartOver).store, next, Idle).store == Stored(next, Initial)
  {
  }

  /** A changed fingerprint discards the stored session at the next run,
      whatever its step. */
  lemma NewQuestionsReset(fp: string, s: Session, current: string)
    requires fp != current
    ensures Run(Stored(fp, s), current, Idle).store == Stored(current, Initial)
  {
  }

  /** Because the fingerprint hashes the joined list, a new list that joins
      to the same text as the old one keeps the old session alive. */
  lemma SameJoinKeepsSession(before: seq<string>, after: seq<string>, digest: string -> string,
                             s: Session)
    requires Join(before) == Join(after)
    ensures CheckFingerprint(Stored(Fingerprint(before, digest), s), Fingerprint(after, digest))
         == Stored(Fingerprint(before, digest), s)
  {
    SameJoinSameFingerprint(before, after, digest);
  }

  /** A session kept across an edit of the list (the fingerprint matched)
      still has the old question texts as its keys. If the served list has
      a question the old one did not, "Generate" on the complete session
      raises the `KeyError`, naming the first such question. */
  lemma StaleSessionCrashes(fp: string, before: seq<string>, s: Session, k: nat)
    requires |before| == N && Inv(before, s) && Complete(before, s)
    requires k < N && QUESTIONS[k] !in before
    requires forall i :: 0 <= i < k ==> QUESTIONS[i] in before
    ensures Run(Stored(fp, s), fp, Generate).store == Stored(fp, s)
    ensures Run(Stored(fp, s), fp, Generate).request == Crash(MissingAnswer(QUESTIONS[k]))
  {
    var store := Stored(fp, s);
    assert Complete(QUESTIONS, s) by {
      assert s.step == |before|;
    }
    assert QUESTIONS[k] !in s.answers by {
      assert QUESTIONS[k] !in Asked(before, s.step);
    }
    assert forall i :: 0 <= i < k ==> QUESTIONS[i] in s.answers by {
      forall i | 0 <= i < k ensures QUESTIONS[i] in s.answers {
        var m :| 0 <= m < |before| && before[m] == QUESTIONS[i];
        assert before[m] in Asked(before, s.step);
      }
    }
    var e := Build(s.answers).error;
    assert Build(s.answers) == Failure(e);
    var j :| 0 <= j < N && e == MissingAnswer(QUESTIONS[j])
      && QUESTIONS[j] !in s.answers && forall i :: 0 <= i < j ==> QUESTIONS[i] in s.answers;
    assert j == k;
    assert Run(store, fp, Generate) == Outcome(store, Crash(e));
  }

  /** The list after moving the "?" that ends the first question to the
      start of the second: a different list with the same joined text. */
  const Edited: seq<string> :=
    ["What's your business name and location", "?" + QUESTIONS[1]] + QUESTIONS[2..]

  /** `Edited` joins to the same text as `QUESTIONS`. */
  lemma EditedJoin()
    ensures Join(Edited) == Join(QUESTIONS)
  {
    var x := "What's your business name and location";
    var b := QUESTIONS[2..];
    assert x + "?" == QUESTIONS[0];
    assert [] + [x + "?", QUESTIONS[1]] + b == QUESTIONS;
    assert [] + [x, "?" + QUESTIONS[1]] + b == Edited;
    JoinShift([], b, x, "?", QUESTIONS[1]);
  }

  /** `Edited` is a valid question list lacking the first question of
      `QUESTIONS`: its nine texts have nine different lengths, none of
      them that of `QUESTIONS[0]`. */
  lemma EditedList()
    ensures |Edited| == N && Distinct(Edited)
    ensures QUESTIONS[0] !in Edited && Edited != QUESTIONS
  {
  }

  /** Nine non-blank answers complete a session under `Edited`. */
  lemma EditedSession(xs: seq<string>)
    requires |xs| == N
    requires forall k :: 0 <= k < |xs| ==> !IsBlank(xs[k])
    ensures Inv(Edited, SubmitAll(Edited, Initial, xs)) && Complete(Edited, SubmitAll(Edited, Initial, xs))
  {
    EditedList();
    FullIntake(Edited, xs);
  }

  /** A session completed under `Edited` fails "Generate" on the first
      question of `QUESTIONS` when its fingerprint is taken as current. */
  lemma EditedSessionCrashes(fp: string, xs: seq<string>)
    requires |xs| == N
    requires forall k :: 0 <= k < |xs| ==> !IsBlank(xs[k])
    ensures Run(Stored(fp, SubmitAll(Edited, Initial, xs)), fp, Generate).request
         == Crash(MissingAnswer(QUESTIONS[0]))
  {
    EditedList();
    EditedSession(xs);
    StaleSessionCrashes(fp, Edited, SubmitAll(Edited, Initial, xs), 0);
  }

  /** A concrete crash: a session completed under `Edited` with any nine
      non-blank answers survives the switch to `QUESTIONS`, and "Generate"
      then fails on the first question. */
  lemma EditedListCrashes(digest: string -> string, xs: seq<string>)
    requires |xs| == N
    requires forall k :: 0 <= k < |xs| ==> !IsBlank(xs[k])
    ensures Fingerprint(Edited, digest) == Fingerprint(QUESTIONS, digest)
    ensures Run(Stored(Fingerprint(Edited, digest), SubmitAll(Edited, Initial, xs)),
                Fingerprint(QUESTIONS, digest), Generate).request
         == Crash(MissingAnswer(QUESTIONS[0]))
  {
    EditedJoin();
    SameJoinSameFingerprint(Edited, QUESTIONS, digest);
    EditedSessionCrashes(Fingerprint(QUESTIONS, digest), xs);
  }

  /** The runs for a sequence of events. */
  function Replay(store: Store, current: string, events: seq<Event>): (r: Store)
    ensures events == [] ==> r == store
    ensures events != [] ==> (r == Cleared <==> events[|events| - 1].StartOver?)
    ensures events != [] && !events[|events| - 1].StartOver? ==> r.fingerprint == current
    decreases |events|
  {
    if events == [] then store
    else Run(Replay(store, current, events[..|events| - 1]), current, events[|events| - 1]).store
  }

  /** One "Next" press per answer. */
  function Nexts(xs: seq<string>): (r: seq<Event>)
    ensures |r| == |xs|
    ensures forall i :: 0 <= i < |xs| ==> r[i] == Next(xs[i])
  {
    seq(|xs|, i requires 0 <= i < |xs| => Next(xs[i]))
  }

  /** Pressing "Next" with each answer runs the intake machine on them. */
  lemma {:induction false} ReplayNexts(fp: string, s: Session, xs: seq<string>)
    ensures Replay(Stored(fp, s), fp, Nexts(xs)) == Stored(fp, SubmitAll(QUESTIONS, s, xs))
    decreases |xs|
  {
    if xs != [] {
      var init := xs[..|xs| - 1];
      assert Nexts(xs)[..|xs| - 1] == Nexts(init);
      ReplayNexts(fp, s, init);
    }
  }

  /** First load, nine non-blank answers, then "Generate": the agent receives
      the record whose field `i` is the stripped `i`-th answer. */
  lemma EndToEnd(fp: string, xs: seq<string>)
    requires |xs| == N
    requires forall k :: 0 <= k < |xs| ==> !IsBlank(xs[k])
    ensures Run(Cleared, fp, Idle).store == Stored(fp, Initial)
    ensures var done := Replay(Stored(fp, Initial), fp, Nexts(xs));
      && Complete(QUESTIONS, done.session)
      && Run(done, fp, Generate).request.Request?
      && forall i :: 0 <= i < N ==> Fields(Run(done, fp, Generate).request.info)[i] == Strip(xs[i])
  {
    var s := SubmitAll(QUESTIONS, Initial, xs);
    assert Replay(Stored(fp, Initial), fp, Nexts(xs)) == Stored(fp, s) by {
      ReplayNexts(fp, Initial, xs);
    }
    assert Inv(QUESTIONS, s) && Complete(QUESTIONS, s) by {
      QuestionsDistinct();
      FullIntake(QUESTIONS, xs);
    }
    GenerateSendsRecord(fp, s);
    var info := Run(Stored(fp, s), fp, Generate).request.info;
    forall i | 0 <= i < N ensures Fields(info)[i] == Strip(xs[i]) {
      assert Fields(info)[i] == s.answers[QUESTIONS[i]];
      assert s.answers[QUESTIONS[i]] == Strip(xs[i]) by {
        QuestionsDistinct();
        FullIntake(QUESTIONS, xs);
      }
    }
  }
}
