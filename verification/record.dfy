/** The `BusinessInfo` record and its construction from the collected answers. */
module Record {
  import opened Wrappers
  import opened Text
  import opened Questions
  import opened Intake

  /** The nine string fields of `BusinessInfo`, in declaration order. */
  datatype BusinessInfo = BusinessInfo(
    businessName: string,
    industry: string,
    budget: string,
    website: string,
    socialPlatforms: string,
    businessGoals: string,
    targetAudience: string,
    contentCreation: string,
    additionalInfo: string)

  /** The fields of a record as a list, field `i` at index `i`. */
  function Fields(b: BusinessInfo): seq<string> {
    [b.businessName, b.industry, b.budget, b.website, b.socialPlatforms,
     b.businessGoals, b.targetAudience, b.contentCreation, b.additionalInfo]
  }

  /** The `KeyError` raised when an answer is looked up for a question that
      has none. */
  datatype BuildError = MissingAnswer(question: string)

  /** The first index from `k` on whose question has no answer, if any. */
  function FirstMissing(qs: seq<string>, answers: map<string, string>, k: nat): (r: Option<nat>)
    requires k <= |qs|
    ensures r.None? ==> forall i :: k <= i < |qs| ==> qs[i] in answers
    ensures r.Some? ==> k <= r.value < |qs| && qs[r.value] !in answers
    ensures r.Some? ==> forall i :: k <= i < r.value ==> qs[i] in answers
    decreases |qs| - k
  {
    if k == |qs| then None
    else if qs[k] !in answers then Some(k)
    else FirstMissing(qs, answers, k + 1)
  }

  /** `BusinessInfo(business_name=answers[QUESTIONS[0]], ...)`: field `i` is
      the answer to question `i`. The keyword arguments are evaluated in
      order, so the error names the first question without an answer. */
  function Build(answers: map<string, string>): (r: Result<BusinessInfo, BuildError>)
    ensures r.Success? <==> forall i :: 0 <= i < N ==> QUESTIONS[i] in answers
    ensures r.Success? ==> |Fields(r.value)| == N
    ensures r.Success? ==> forall i :: 0 <= i < N ==> Fields(r.value)[i] == answers[QUESTIONS[i]]
    ensures r.Failure? ==> exists k :: 0 <= k < N && r.error == MissingAnswer(QUESTIONS[k])
                                    && QUESTIONS[k] !in answers
                                    && forall i :: 0 <= i < k ==> QUESTIONS[i] in answers
  {
    match FirstMissing(QUESTIONS, answers, 0)
    case Some(k) => Failure(MissingAnswer(QUESTIONS[k]))
    case None =>
      Success(BusinessInfo(
        answers[QUESTIONS[0]], answers[QUESTIONS[1]], answers[QUESTIONS[2]],
        answers[QUESTIONS[3]], answers[QUESTIONS[4]], answers[QUESTIONS[5]],
        answers[QUESTIONS[6]], answers[QUESTIONS[7]], answers[QUESTIONS[8]]))
  }

  /** The mapping is by position, not by meaning: `budget` holds the answer
      about where the customers are, `website` the one about the social
      media goal, and so on. */
  lemma BuildByPosition(answers: map<string, string>)
    requires Build(answers).Success?
    ensures var b := Build(answers).value;
      && b.businessName == answers["What's your business name and location?"]
      && b.industry == answers["Do you have any physical out or you are only online ?"]
      && b.budget == answers["Where are your customers mostly located?"]
      && b.website == answers["What\U{2019}s your main goal with Instagram & Facebook?"]
      && b.socialPlatforms == answers["How would you describe your brand\U{2019}s vibe?"]
      && b.businessGoals == answers["What kind of posts do you want to see more of?"]
      && b.targetAudience == answers["Is there any brand/page you love and want us to take inspiration from?(mention competitors provide links to AI )"]
      && b.contentCreation == answers["Do you already have a logo & brand colors?"]
      && b.additionalInfo == answers["Any specific requirements, challenges, or additional information?"]
  {
  }

  /** A complete session always builds: every question has an answer, and
      every field is a non-empty stripped answer. */
  lemma BuildComplete(s: Session)
    requires Inv(QUESTIONS, s) && Complete(QUESTIONS, s)
    ensures Build(s.answers).Success?
    ensures forall i :: 0 <= i < N ==>
      Fields(Build(s.answers).value)[i] == s.answers[QUESTIONS[i]]
      && Fields(Build(s.answers).value)[i] != [] && IsStripped(Fields(Build(s.answers).value)[i])
  {
    forall i | 0 <= i < N ensures QUESTIONS[i] in s.answers {
      assert QUESTIONS[i] in Asked(QUESTIONS, s.step);
    }
  }

  /** Building while questions remain fails on the question being asked. */
  lemma BuildIncomplete(s: Session)
    requires Inv(QUESTIONS, s) && !Complete(QUESTIONS, s)
    ensures Build(s.answers) == Failure(MissingAnswer(QUESTIONS[s.step]))
  {
    QuestionsDistinct();
    AskedNext(QUESTIONS, s.step);
    forall i | 0 <= i < s.step ensures QUESTIONS[i] in s.answers {
      assert QUESTIONS[i] in Asked(QUESTIONS, s.step);
    }
    var r := FirstMissing(QUESTIONS, s.answers, 0);
    assert r == Some(s.step);
  }
}
