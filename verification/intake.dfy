/** The intake state machine: a step counter over a question list and the
    answers collected so far, keyed by question text. The machine is stated
    for any list `qs`; the form runs it on `Questions.QUESTIONS`. */
module Intake {
  import opened Text
  import opened Questions

  /** `st.session_state.step` and `st.session_state.answers`. */
  datatype Session = Session(step: nat, answers: map<string, string>)

  /** The session right after (re-)initialisation. */
  const Initial: Session := Session(0, map[])

  /** The questions asked before step `k`: `{qs[i] | 0 <= i < k}`. */
  function Asked(qs: seq<string>, k: nat): set<string>
    requires k <= |qs|
  {
    set i | 0 <= i < k :: qs[i]
  }

  /** The intake invariant: the answered questions are exactly the first
      `step` ones, and every stored answer is non-empty and stripped. */
  predicate Inv(qs: seq<string>, s: Session) {
    && s.step <= |qs|
    && s.answers.Keys == Asked(qs, s.step)
    && forall q :: q in s.answers ==> s.answers[q] != [] && IsStripped(s.answers[q])
  }

  /** All questions answered: the form stops asking and offers generation. */
  predicate Complete(qs: seq<string>, s: Session) {
    s.step >= |qs|
  }

  /** "Next" takes the answer only while a question is being asked and the
      answer is not all whitespace. */
  predicate Accepts(qs: seq<string>, s: Session, answer: string) {
    s.step < |qs| && !IsBlank(answer)
  }

  /** Pressing "Next" with `answer` in the text box while `qs[step]` is shown. */
  function Submit(qs: seq<string>, s: Session, answer: string): (r: Session)
    ensures Accepts(qs, s, answer) ==> r.step == s.step + 1
    ensures !Accepts(qs, s, answer) ==> r == s
    ensures Accepts(qs, s, answer) ==> r.answers.Keys == s.answers.Keys + {qs[s.step]}
    ensures Accepts(qs, s, answer) ==> r.answers[qs[s.step]] == Strip(answer) != []
    ensures Accepts(qs, s, answer) ==>
      forall q :: q in s.answers && q != qs[s.step] ==> r.answers[q] == s.answers[q]
  {
    StripEmptyIffBlank(answer);
    if s.step < |qs| then
      var a := Strip(answer);
      if a != [] then Session(s.step + 1, s.answers[qs[s.step] := a]) else s
    else
      s
  }

  /** Step `k` adds exactly the question at index `k`, and with distinct
      questions that one was not asked before. */
  lemma AskedNext(qs: seq<string>, k: nat)
    requires k < |qs|
    ensures Asked(qs, k + 1) == Asked(qs, k) + {qs[k]}
    ensures Distinct(qs) ==> qs[k] !in Asked(qs, k)
  {
  }

  /** With distinct questions, `k` steps have asked `k` questions. */
  lemma {:induction false} AskedCount(qs: seq<string>, k: nat)
    requires Distinct(qs) && k <= |qs|
    ensures |Asked(qs, k)| == k
  {
    if k > 0 {
      AskedNext(qs, k - 1);
      AskedCount(qs, k - 1);
    } else {
      assert Asked(qs, 0) == {};
    }
  }

  lemma InitialInv(qs: seq<string>)
    ensures Inv(qs, Initial)
  {
    assert Asked(qs, 0) == {};
  }

  /** "Next" preserves the intake invariant. */
  lemma SubmitPreservesInv(qs: seq<string>, s: Session, answer: string)
    requires Inv(qs, s)
    ensures Inv(qs, Submit(qs, s, answer))
  {
    if Accepts(qs, s, answer) {
      AskedNext(qs, s.step);
    }
  }

  /** Under the invariant, and with distinct questions, there is one answer
      per step taken. */
  lemma AnswerCount(qs: seq<string>, s: Session)
    requires Distinct(qs) && Inv(qs, s)
    ensures |s.answers| == s.step
  {
    AskedCount(qs, s.step);
    assert |s.answers| == |s.answers.Keys|;
  }

  /** With distinct questions, "Next" never changes or drops an answer
      already recorded. */
  lemma SubmitKeepsRecorded(qs: seq<string>, s: Session, answer: string)
    requires Distinct(qs) && Inv(qs, s)
    ensures forall q :: q in s.answers ==>
      q in Submit(qs, s, answer).answers && Submit(qs, s, answer).answers[q] == s.answers[q]
  {
    if Accepts(qs, s, answer) {
      AskedNext(qs, s.step);
    }
  }

  /** A stored answer is non-empty and stripping it again changes nothing. */
  lemma StoredAnswerStable(qs: seq<string>, s: Session, q: string)
    requires Inv(qs, s) && q in s.answers
    ensures s.answers[q] != []
    ensures Strip(s.answers[q]) == s.answers[q]
  {
    StrippedIsFixpoint(s.answers[q]);
  }

  /** Pressing "Next" with each of `xs` in turn. */
  function SubmitAll(qs: seq<string>, s: Session, xs: seq<string>): (r: Session)
    ensures s.step <= r.step <= s.step + |xs|
    ensures s.step <= |qs| ==> r.step <= |qs|
    decreases |xs|
  {
    if xs == [] then s else Submit(qs, SubmitAll(qs, s, xs[..|xs| - 1]), xs[|xs| - 1])
  }

  /** The answers of `xs` that are not all whitespace, in order. */
  function NonBlank(xs: seq<string>): (r: seq<string>)
    ensures |r| <= |xs|
    ensures forall i :: 0 <= i < |r| ==> !IsBlank(r[i])
    ensures forall x :: x in r <==> x in xs && !IsBlank(x)
    ensures (forall i :: 0 <= i < |xs| ==> !IsBlank(xs[i])) ==> r == xs
    decreases |xs|
  {
    if xs == [] then []
    else if IsBlank(xs[|xs| - 1]) then NonBlank(xs[..|xs| - 1])
    else NonBlank(xs[..|xs| - 1]) + [xs[|xs| - 1]]
  }

  /** The invariant holds after any sequence of "Next" presses. */
  lemma {:induction false} SubmitAllPreservesInv(qs: seq<string>, s: Session, xs: seq<string>)
    requires Inv(qs, s)
    ensures Inv(qs, SubmitAll(qs, s, xs))
    decreases |xs|
  {
    if xs != [] {
      SubmitAllPreservesInv(qs, s, xs[..|xs| - 1]);
      SubmitPreservesInv(qs, SubmitAll(qs, s, xs[..|xs| - 1]), xs[|xs| - 1]);
    }
  }

  /** Blank answers are ignored: only the non-blank ones drive the session. */
  lemma {:induction false} SubmitAllSkipsBlank(qs: seq<string>, s: Session, xs: seq<string>)
    ensures SubmitAll(qs, s, xs) == SubmitAll(qs, s, NonBlank(xs))
    decreases |xs|
  {
    if xs != [] {
      var init, last := xs[..|xs| - 1], xs[|xs| - 1];
      SubmitAllSkipsBlank(qs, s, init);
      if !IsBlank(last) {
        var r := NonBlank(init) + [last];
        assert r[..|r| - 1] == NonBlank(init);
      }
    }
  }

  /** A complete session stays complete and unchanged whatever is submitted. */
  lemma {:induction false} CompleteAbsorbs(qs: seq<string>, s: Session, xs: seq<string>)
    requires Complete(qs, s)
    ensures SubmitAll(qs, s, xs) == s
    decreases |xs|
  {
    if xs != [] {
      CompleteAbsorbs(qs, s, xs[..|xs| - 1]);
    }
  }

  /** Each non-blank answer advances the step by one while questions remain. */
  lemma {:induction false} SubmitAllSteps(qs: seq<string>, s: Session, xs: seq<string>)
    requires s.step + |xs| <= |qs|
    requires forall k :: 0 <= k < |xs| ==> !IsBlank(xs[k])
    ensures SubmitAll(qs, s, xs).step == s.step + |xs|
    decreases |xs|
  {
    if xs != [] {
      SubmitAllSteps(qs, s, xs[..|xs| - 1]);
    }
  }

  /** The last of a run of non-blank answers lands on its own question. */
  lemma SubmitAllFillsLast(qs: seq<string>, s: Session, xs: seq<string>)
    requires s.step + |xs| <= |qs| && xs != []
    requires forall k :: 0 <= k < |xs| ==> !IsBlank(xs[k])
    ensures qs[s.step + |xs| - 1] in SubmitAll(qs, s, xs).answers
    ensures SubmitAll(qs, s, xs).answers[qs[s.step + |xs| - 1]] == Strip(xs[|xs| - 1])
  {
    var init, last := xs[..|xs| - 1], xs[|xs| - 1];
    var p := SubmitAll(qs, s, init);
    SubmitAllSteps(qs, s, init);
    assert p.step == s.step + |xs| - 1;
    assert Accepts(qs, p, last);
    var r := Submit(qs, p, last);
    assert qs[p.step] in r.answers;
    assert SubmitAll(qs, s, xs) == r;
  }

  /** With distinct questions, submitting non-blank answers fills the next
      questions in order with the stripped answers. */
  lemma {:induction false} SubmitAllFills(qs: seq<string>, s: Session, xs: seq<string>, i: nat)
    requires Distinct(qs) && Inv(qs, s) && s.step + |xs| <= |qs|
    requires forall k :: 0 <= k < |xs| ==> !IsBlank(xs[k])
    requires i < |xs|
    ensures qs[s.step + i] in SubmitAll(qs, s, xs).answers
    ensures SubmitAll(qs, s, xs).answers[qs[s.step + i]] == Strip(xs[i])
    decreases |xs|
  {
    var q := qs[s.step + i];
    if i == |xs| - 1 {
      assert q in SubmitAll(qs, s, xs).answers && SubmitAll(qs, s, xs).answers[q] == Strip(xs[i]) by {
        SubmitAllFillsLast(qs, s, xs);
      }
    } else {
      var init, last := xs[..|xs| - 1], xs[|xs| - 1];
      var p := SubmitAll(qs, s, init);
      assert q in p.answers && p.answers[q] == Strip(xs[i]) by {
        assert init[i] == xs[i];
        SubmitAllFills(qs, s, init, i);
      }
      assert Inv(qs, p) by {
        SubmitAllPreservesInv(qs, s, init);
      }
      var r := Submit(qs, p, last);
      assert q in r.answers && r.answers[q] == p.answers[q] by {
        SubmitKeepsRecorded(qs, p, last);
      }
      assert SubmitAll(qs, s, xs) == r;
    }
  }

  /** With distinct questions, one non-blank answer per question from a
      fresh session completes the intake, question `i` answered by the
      stripped `xs[i]`. */
  lemma FullIntake(qs: seq<string>, xs: seq<string>)
    requires Distinct(qs) && |xs| == |qs|
    requires forall k :: 0 <= k < |xs| ==> !IsBlank(xs[k])
    ensures Complete(qs, SubmitAll(qs, Initial, xs)) && Inv(qs, SubmitAll(qs, Initial, xs))
    ensures |SubmitAll(qs, Initial, xs).answers| == |qs|
    ensures forall i :: 0 <= i < |qs| ==>
      qs[i] in SubmitAll(qs, Initial, xs).answers
      && SubmitAll(qs, Initial, xs).answers[qs[i]] == Strip(xs[i])
  {
    var r := SubmitAll(qs, Initial, xs);
    assert r.step == |qs| by {
      SubmitAllSteps(qs, Initial, xs);
    }
    assert Inv(qs, r) by {
      InitialInv(qs);
      SubmitAllPreservesInv(qs, Initial, xs);
    }
    assert |r.answers| == |qs| by {
      AnswerCount(qs, r);
    }
    forall i | 0 <= i < |qs|
      ensures qs[i] in r.answers && r.answers[qs[i]] == Strip(xs[i])
    {
      InitialInv(qs);
      FreshFill(qs, Initial, xs, i);
    }
  }

  /** From a session at step 0, the `i`-th of the non-blank answers fills
      question `i`. */
  lemma FreshFill(qs: seq<string>, s: Session, xs: seq<string>, i: nat)
    requires Distinct(qs) && Inv(qs, s) && s.step == 0 && |xs| <= |qs|
    requires forall k :: 0 <= k < |xs| ==> !IsBlank(xs[k])
    requires i < |xs|
    ensures qs[i] in SubmitAll(qs, s, xs).answers
    ensures SubmitAll(qs, s, xs).answers[qs[i]] == Strip(xs[i])
  {
    SubmitAllFills(qs, s, xs, i);
    assert s.step + i == i;
  }
}
