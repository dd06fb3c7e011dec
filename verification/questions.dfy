/** The fixed question list of the intake form and its content fingerprint. */
module Questions {

  /** The nine prompts, in the order the form asks them. */
  const QUESTIONS: seq<string> := [
    "What's your business name and location?",
    "Do you have any physical out or you are only online ?",
    "Where are your customers mostly located?",
    "What\U{2019}s your main goal with Instagram & Facebook?",
    "How would you describe your brand\U{2019}s vibe?",
    "What kind of posts do you want to see more of?",
    "Is there any brand/page you love and want us to take inspiration from?(mention competitors provide links to AI )",
    "Do you already have a logo & brand colors?",
    "Any specific requirements, challenges, or additional information?"
  ]

  /** Number of questions, `len(QUESTIONS)`. */
  const N: nat := |QUESTIONS|

  /** No question text occurs twice, so question texts can key the answers. */
  predicate Distinct(qs: seq<string>) {
    forall i, j :: 0 <= i < j < |qs| ==> qs[i] != qs[j]
  }

  lemma QuestionsDistinct()
    ensures N == 9
    ensures Distinct(QUESTIONS)
  {
  }

  /** Python's `"".join(qs)`: the questions concatenated with no separator. */
  function Join(qs: seq<string>): string {
    if qs == [] then "" else qs[0] + Join(qs[1..])
  }

  /** The joined text is empty exactly when every question is. */
  lemma {:induction false} JoinEmpty(qs: seq<string>)
    ensures Join(qs) == [] <==> forall i :: 0 <= i < |qs| ==> qs[i] == []
  {
    if qs != [] {
      JoinEmpty(qs[1..]);
      assert forall i :: 1 <= i < |qs| ==> qs[i] == qs[1..][i - 1];
    }
  }

  /** Joining distributes over list concatenation. */
  lemma {:induction false} JoinAppend(a: seq<string>, b: seq<string>)
    ensures Join(a + b) == Join(a) + Join(b)
  {
    if a != [] {
      assert (a + b)[1..] == a[1..] + b;
      JoinAppend(a[1..], b);
    } else {
      assert a + b == b;
    }
  }

  /** The fingerprint stored in the session: `digest` stands for
      `hashlib.md5(s.encode()).hexdigest()`, applied to the joined list. */
  function Fingerprint(qs: seq<string>, digest: string -> string): string {
    digest(Join(qs))
  }

  /** Lists with the same concatenation get the same fingerprint whatever
      the hash, even when the lists themselves differ. */
  lemma SameJoinSameFingerprint(qs: seq<string>, qs': seq<string>, digest: string -> string)
    requires Join(qs) == Join(qs')
    ensures Fingerprint(qs, digest) == Fingerprint(qs', digest)
  {
  }

  /** Moving text from the end of one question to the start of the next
      leaves the joined text as it was. */
  lemma JoinShift(a: seq<string>, b: seq<string>, x: string, y: string, z: string)
    ensures Join(a + [x + y, z] + b) == Join(a + [x, y + z] + b)
  {
    JoinAppend(a + [x + y, z], b);
    JoinAppend(a, [x + y, z]);
    JoinAppend(a + [x, y + z], b);
    JoinAppend(a, [x, y + z]);
    JoinPair(x + y, z);
    JoinPair(x, y + z);
    assert (x + y) + z == x + (y + z);
  }

  /** Joining loses the boundaries between questions: moving text from the
      end of one question to the start of the next changes the list but not
      its fingerprint, whatever the hash. */
  lemma JoinLosesBoundaries(a: seq<string>, b: seq<string>, x: string, y: string, z: string,
                            digest: string -> string)
    ensures Fingerprint(a + [x + y, z] + b, digest) == Fingerprint(a + [x, y + z] + b, digest)
  {
    JoinShift(a, b, x, y, z);
  }

  lemma JoinPair(p: string, q: string)
    ensures Join([p, q]) == p + q
  {
    assert [p, q][1..] == [q];
    assert [q][1..] == [];
    assert Join([q]) == q + Join([]);
    assert q + "" == q;
  }

  /** For instance `["ab", "c"]` and `["a", "bc"]` are different lists with
      one fingerprint. */
  lemma BoundaryCollision(digest: string -> string)
    ensures ["ab", "c"] != ["a", "bc"]
    ensures Fingerprint(["ab", "c"], digest) == Fingerprint(["a", "bc"], digest)
  {
    JoinPair("ab", "c");
    JoinPair("a", "bc");
    assert "ab" + "c" == "a" + "bc";
  }
}
