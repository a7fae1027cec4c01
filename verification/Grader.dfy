/** The case grader: citation, leak and answer checks over one turn. */
module Grader {
  import opened Responder
  import opened Text
  import opened Wrappers

  datatype ConflictExpect =
    ConflictExpect(citeAll: Option<seq<string>>, citeAny: Option<seq<string>>, sides: Option<seq<seq<string>>>)

  datatype Expect = Expect(
    citeAny: Option<seq<string>>, citeAll: Option<seq<string>>, mustNotCite: Option<seq<string>>,
    conflict: Option<ConflictExpect>, containsAll: Option<seq<string>>, insufficient: bool)

  datatype CheckName =
    | EvidenceShape | CompletionShape | CompletionPresent | CiteAny | CiteAll | MustNotCite
    | ConflictCiteAll | ConflictCiteAny | ContainsAll | ConflictSides | Insufficient

  /** A check's result; None when the answer that it needs was not produced. */
  datatype Check = Check(name: CheckName, ok: Option<bool>)

  datatype Graded = Graded(evidence: seq<Check>, answer: seq<Check>, hardFail: bool)

  const MARKERS: seq<string> := [
    "insufficient evidence", "does not establish", "cannot establish", "not enough evidence", "no evidence",
    "cannot answer", "not answerable", "do not have enough", "does not contain", "not found in the evidence"]

  // ----- text ------------------------------------------------------------------

  function LowerChar(c: char): char {
    if 'A' <= c <= 'Z' then 'a' + (c - 'A') else c
  }

  /** text.lower(), on ASCII letters */
  function Lower(s: string): string {
    seq(|s|, i requires 0 <= i < |s| => LowerChar(s[i]))
  }

  /** part in text */
  predicate Contains(text: string, part: string) {
    exists i | 0 <= i <= |text| - |part| :: part <= text[i..]
  }

  predicate Mentions(text: string, term: string) {
    Contains(Lower(text), Lower(term))
  }

  /** Some marker stands in the lower-cased text; the markers themselves are not lower-cased. */
  predicate DeclaresInsufficient(text: string) {
    exists m | m in MARKERS :: Contains(Lower(text), m)
  }

  // ----- grading one case ----------------------------------------------------------

  predicate ValidHits(turn: Turn) {
    turn.hits.Some? && forall p | p in turn.hits.value :: p != ""
  }

  function PathsOf(turn: Turn): seq<string> {
    if ValidHits(turn) then turn.hits.value else []
  }

  function TextOf(turn: Turn): string {
    if turn.completion.Completed? then turn.completion.text else ""
  }

  predicate HasAny(paths: seq<string>, wanted: seq<string>) {
    exists p | p in wanted :: p in paths
  }

  predicate HasAll(paths: seq<string>, wanted: seq<string>) {
    forall p | p in wanted :: p in paths
  }

  predicate Leaks(paths: seq<string>, prefixes: seq<string>) {
    exists p | p in paths :: exists pre | pre in prefixes :: StartsWith(p, pre)
  }

  predicate MentionsAll(text: string, terms: seq<string>) {
    forall t | t in terms :: Mentions(text, t)
  }

  predicate MentionsSides(text: string, sides: seq<seq<string>>) {
    forall side | side in sides :: exists t | t in side :: Mentions(text, t)
  }

  function AppendIf(checks: seq<Check>, c: bool, check: Check): seq<Check> {
    if c then checks + [check] else checks
  }

  function NoConflict(): ConflictExpect {
    ConflictExpect(None, None, None)
  }

  /** The checks on citations: shape, any, all, leaks, both sides of a conflict. */
  function EvidenceChecks(asked: Expect, turn: Turn): seq<Check> {
    var paths := PathsOf(turn);
    var c := if asked.conflict.Some? then asked.conflict.value else NoConflict();
    var e0 := AppendIf([], !ValidHits(turn), Check(EvidenceShape, Some(false)));
    var e1 := AppendIf(e0, asked.citeAny.Some?,
                       Check(CiteAny, Some(asked.citeAny.Some? && HasAny(paths, asked.citeAny.value))));
    var e2 := AppendIf(e1, asked.citeAll.Some?,
                       Check(CiteAll, Some(asked.citeAll.Some? && HasAll(paths, asked.citeAll.value))));
    var e3 := AppendIf(e2, asked.mustNotCite.Some?, Check(MustNotCite, Some(!Leaked(asked, turn))));
    var e4 := AppendIf(e3, c.citeAll.Some?,
                       Check(ConflictCiteAll, Some(c.citeAll.Some? && HasAll(paths, c.citeAll.value))));
    AppendIf(e4, c.citeAny.Some?, Check(ConflictCiteAny, Some(c.citeAny.Some? && HasAny(paths, c.citeAny.value))))
  }

  predicate Leaked(asked: Expect, turn: Turn) {
    asked.mustNotCite.Some? && Leaks(PathsOf(turn), asked.mustNotCite.value)
  }

  /** A result that is only known once an answer was produced. */
  function IfRan(ran: bool, ok: bool): Option<bool> {
    if ran then Some(ok) else None
  }

  /** The checks on the answer: shape, presence, terms, sides, insufficiency. */
  function AnswerChecks(asked: Expect, turn: Turn, complete: bool): seq<Check> {
    var text := TextOf(turn);
    var ran := complete && Strip(text) != "";
    var c := if asked.conflict.Some? then asked.conflict.value else NoConflict();
    var a0 := AppendIf([], turn.completion.MalformedCompletion?, Check(CompletionShape, Some(false)));
    var a1 := AppendIf(a0, complete && Strip(text) == "", Check(CompletionPresent, None));
    var a2 := AppendIf(a1, asked.containsAll.Some?,
                       Check(ContainsAll, IfRan(ran, asked.containsAll.Some? && MentionsAll(text, asked.containsAll.value))));
    var a3 := AppendIf(a2, c.sides.Some?,
                       Check(ConflictSides, IfRan(ran, c.sides.Some? && MentionsSides(text, c.sides.value))));
    AppendIf(a3, asked.insufficient, Check(Insufficient, IfRan(ran, DeclaresInsufficient(text))))
  }

  /** The checks made on one turn, and whether one of them is fatal. */
  function Grade(asked: Expect, turn: Turn, complete: bool): Graded {
    Graded(EvidenceChecks(asked, turn), AnswerChecks(asked, turn, complete), !ValidHits(turn) || Leaked(asked, turn))
  }

  method GradeEvidence(asked: Expect, turn: Turn) returns (evidence: seq<Check>, hardFail: bool)
    ensures evidence == EvidenceChecks(asked, turn)
    ensures hardFail == (!ValidHits(turn) || Leaked(asked, turn))
  {
    hide HasAny, HasAll, Leaks, ValidHits;
    var paths := PathsOf(turn);
    evidence, hardFail := [], false;
    if !ValidHits(turn) {
      evidence := evidence + [Check(EvidenceShape, Some(false))];
      hardFail := true;
    }
    if asked.citeAny.Some? {
      evidence := evidence + [Check(CiteAny, Some(HasAny(paths, asked.citeAny.value)))];
    }
    if asked.citeAll.Some? {
      evidence := evidence + [Check(CiteAll, Some(HasAll(paths, asked.citeAll.value)))];
    }
    if asked.mustNotCite.Some? {
      var leaked := Leaks(paths, asked.mustNotCite.value);
      hardFail := hardFail || leaked;
      evidence := evidence + [Check(MustNotCite, Some(!leaked))];
    }
    if asked.conflict.Some? {
      var conflict := asked.conflict.value;
      if conflict.citeAll.Some? {
        evidence := evidence + [Check(ConflictCiteAll, Some(HasAll(paths, conflict.citeAll.value)))];
      }
      if conflict.citeAny.Some? {
        evidence := evidence + [Check(ConflictCiteAny, Some(HasAny(paths, conflict.citeAny.value)))];
      }
    }
  }

  method GradeCase(asked: Expect, turn: Turn, complete: bool) returns (g: Graded)
    ensures g == Grade(asked, turn, complete)
  {
    hide MentionsAll, MentionsSides, DeclaresInsufficient, Strip, EvidenceChecks;
    var evidence, hardFail := GradeEvidence(asked, turn);
    var text := TextOf(turn);
    var answer: seq<Check> := [];
    if turn.completion.MalformedCompletion? {
      answer := answer + [Check(CompletionShape, Some(false))];
    }
    if complete && Strip(text) == "" {
      answer := answer + [Check(CompletionPresent, None)];
    }
    var ran := complete && Strip(text) != "";
    if asked.containsAll.Some? {
      var all := MentionsAll(text, asked.containsAll.value);
      answer := answer + [Check(ContainsAll, if ran then Some(all) else None)];
    }
    if asked.conflict.Some? && asked.conflict.value.sides.Some? {
      var all := MentionsSides(text, asked.conflict.value.sides.value);
      answer := answer + [Check(ConflictSides, if ran then Some(all) else None)];
    }
    if asked.insufficient {
      answer := answer + [Check(Insufficient, if ran then Some(DeclaresInsufficient(text)) else None)];
    }
    g := Graded(evidence, answer, hardFail);
  }

  // ----- the outcome of a case ----------------------------------------------------------

  datatype Outcome = Passed | Failed | NotRun

  function OutcomeOf(g: Graded): Outcome {
    var checks := g.evidence + g.answer;
    if g.hardFail || exists c | c in checks :: c.ok == Some(false) then Failed
    else if exists c | c in checks :: c.ok == None then NotRun
    else Passed
  }

  /** No check failed and none was skipped. */
  predicate AllTrue(checks: seq<Check>) {
    forall c | c in checks :: c.ok == Some(true)
  }

  lemma AllTrueAppend(checks: seq<Check>, c: bool, check: Check)
    ensures AllTrue(AppendIf(checks, c, check)) <==> AllTrue(checks) && (c ==> check.ok == Some(true))
    ensures AllTrue([])
  {
    if AllTrue(checks + [check]) {
      assert check in checks + [check];
      forall x | x in checks ensures x.ok == Some(true) { assert x in checks + [check]; }
    }
  }

  /** The evidence part of an expectation is met. */
  predicate EvidenceMet(asked: Expect, turn: Turn) {
    var paths := PathsOf(turn);
    ValidHits(turn) && !Leaked(asked, turn) &&
    (asked.citeAny.Some? ==> HasAny(paths, asked.citeAny.value)) &&
    (asked.citeAll.Some? ==> HasAll(paths, asked.citeAll.value)) &&
    (asked.conflict.Some? ==>
      var c := asked.conflict.value;
      (c.citeAll.Some? ==> HasAll(paths, c.citeAll.value)) && (c.citeAny.Some? ==> HasAny(paths, c.citeAny.value)))
  }

  lemma EvidenceTrue(asked: Expect, turn: Turn)
    ensures AllTrue(EvidenceChecks(asked, turn)) <==> EvidenceMet(asked, turn)
  {
    hide HasAny, HasAll, Leaks, AllTrue, AppendIf, ValidHits;
    var paths := PathsOf(turn);
    var c := if asked.conflict.Some? then asked.conflict.value else NoConflict();
    var k0 := Check(EvidenceShape, Some(false));
    var k1 := Check(CiteAny, Some(asked.citeAny.Some? && HasAny(paths, asked.citeAny.value)));
    var k2 := Check(CiteAll, Some(asked.citeAll.Some? && HasAll(paths, asked.citeAll.value)));
    var k3 := Check(MustNotCite, Some(!Leaked(asked, turn)));
    var k4 := Check(ConflictCiteAll, Some(c.citeAll.Some? && HasAll(paths, c.citeAll.value)));
    var k5 := Check(ConflictCiteAny, Some(c.citeAny.Some? && HasAny(paths, c.citeAny.value)));
    var e0 := AppendIf([], !ValidHits(turn), k0);
    var e1 := AppendIf(e0, asked.citeAny.Some?, k1);
    var e2 := AppendIf(e1, asked.citeAll.Some?, k2);
    var e3 := AppendIf(e2, asked.mustNotCite.Some?, k3);
    var e4 := AppendIf(e3, c.citeAll.Some?, k4);
    AllTrueAppend([], !ValidHits(turn), k0);
    AllTrueAppend(e0, asked.citeAny.Some?, k1);
    AllTrueAppend(e1, asked.citeAll.Some?, k2);
    AllTrueAppend(e2, asked.mustNotCite.Some?, k3);
    AllTrueAppend(e3, c.citeAll.Some?, k4);
    AllTrueAppend(e4, c.citeAny.Some?, k5);
  }

  /** The answer part of an expectation is met by a completion that is not blank. */
  predicate AnswerMet(asked: Expect, turn: Turn) {
    var text := TextOf(turn);
    !turn.completion.MalformedCompletion? && Strip(text) != "" &&
    (asked.containsAll.Some? ==> MentionsAll(text, asked.containsAll.value)) &&
    (asked.insufficient ==> DeclaresInsufficient(text)) &&
    (asked.conflict.Some? && asked.conflict.value.sides.Some? ==>
      MentionsSides(text, asked.conflict.value.sides.value))
  }

  lemma AnswerTrue(asked: Expect, turn: Turn)
    ensures AllTrue(AnswerChecks(asked, turn, true)) <==> AnswerMet(asked, turn)
  {
    hide MentionsAll, MentionsSides, DeclaresInsufficient, Strip, AllTrue, AppendIf;
    var text := TextOf(turn);
    var ran := Strip(text) != "";
    var c := if asked.conflict.Some? then asked.conflict.value else NoConflict();
    var k0 := Check(CompletionShape, Some(false));
    var k1 := Check(CompletionPresent, None);
    var k2 := Check(ContainsAll, IfRan(ran, asked.containsAll.Some? && MentionsAll(text, asked.containsAll.value)));
    var k3 := Check(ConflictSides, IfRan(ran, c.sides.Some? && MentionsSides(text, c.sides.value)));
    var k4 := Check(Insufficient, IfRan(ran, DeclaresInsufficient(text)));
    var a0 := AppendIf([], turn.completion.MalformedCompletion?, k0);
    var a1 := AppendIf(a0, Strip(text) == "", k1);
    var a2 := AppendIf(a1, asked.containsAll.Some?, k2);
    var a3 := AppendIf(a2, c.sides.Some?, k3);
    AllTrueAppend([], turn.completion.MalformedCompletion?, k0);
    AllTrueAppend(a0, Strip(text) == "", k1);
    AllTrueAppend(a1, asked.containsAll.Some?, k2);
    AllTrueAppend(a2, c.sides.Some?, k3);
    AllTrueAppend(a3, asked.insufficient, k4);
  }

  lemma PassedIsAllTrue(g: Graded)
    ensures OutcomeOf(g) == Passed <==> !g.hardFail && AllTrue(g.evidence) && AllTrue(g.answer)
  {
    forall c | c in g.evidence || c in g.answer ensures c in g.evidence + g.answer {
    }
    forall c | c in g.evidence + g.answer ensures c.ok == None || c.ok == Some(true) || c.ok == Some(false) {
      if c.ok.Some? { assert c.ok.value == true || c.ok.value == false; }
    }
  }

  /** A graded case passes exactly when the turn has what the expectation asks for. */
  lemma PassedIsMet(asked: Expect, turn: Turn)
    ensures OutcomeOf(Grade(asked, turn, true)) == Passed <==> EvidenceMet(asked, turn) && AnswerMet(asked, turn)
  {
    hide AllTrue, EvidenceChecks, AnswerChecks, OutcomeOf;
    PassedIsAllTrue(Grade(asked, turn, true));
    EvidenceTrue(asked, turn);
    AnswerTrue(asked, turn);
  }

  // ----- failed or not run ----------------------------------------------------------------

  datatype Test = Known | NotFalse

  /** Is the result known, or at least not false? */
  predicate Meets(t: Test, ok: Option<bool>) {
    match t
    case Known => ok.Some?
    case NotFalse => ok != Some(false)
  }

  predicate AllMeet(checks: seq<Check>, t: Test) {
    forall c | c in checks :: Meets(t, c.ok)
  }

  lemma AllMeetAppend(checks: seq<Check>, c: bool, check: Check, t: Test)
    ensures AllMeet(AppendIf(checks, c, check), t) <==> AllMeet(checks, t) && (c ==> Meets(t, check.ok))
    ensures AllMeet([], t)
  {
    if AllMeet(checks + [check], t) {
      assert check in checks + [check];
      forall x | x in checks ensures Meets(t, x.ok) { assert x in checks + [check]; }
    }
  }

  /** Every citation check has a result. */
  lemma EvidenceKnown(asked: Expect, turn: Turn)
    ensures AllMeet(EvidenceChecks(asked, turn), Known)
  {
    hide HasAny, HasAll, Leaks, ValidHits, AllMeet, AppendIf;
    var paths := PathsOf(turn);
    var c := if asked.conflict.Some? then asked.conflict.value else NoConflict();
    var k0 := Check(EvidenceShape, Some(false));
    var k1 := Check(CiteAny, Some(asked.citeAny.Some? && HasAny(paths, asked.citeAny.value)));
    var k2 := Check(CiteAll, Some(asked.citeAll.Some? && HasAll(paths, asked.citeAll.value)));
    var k3 := Check(MustNotCite, Some(!Leaked(asked, turn)));
    var k4 := Check(ConflictCiteAll, Some(c.citeAll.Some? && HasAll(paths, c.citeAll.value)));
    var k5 := Check(ConflictCiteAny, Some(c.citeAny.Some? && HasAny(paths, c.citeAny.value)));
    var e0 := AppendIf([], !ValidHits(turn), k0);
    var e1 := AppendIf(e0, asked.citeAny.Some?, k1);
    var e2 := AppendIf(e1, asked.citeAll.Some?, k2);
    var e3 := AppendIf(e2, asked.mustNotCite.Some?, k3);
    var e4 := AppendIf(e3, c.citeAll.Some?, k4);
    AllMeetAppend([], !ValidHits(turn), k0, Known);
    AllMeetAppend(e0, asked.citeAny.Some?, k1, Known);
    AllMeetAppend(e1, asked.citeAll.Some?, k2, Known);
    AllMeetAppend(e2, asked.mustNotCite.Some?, k3, Known);
    AllMeetAppend(e3, c.citeAll.Some?, k4, Known);
    AllMeetAppend(e4, c.citeAny.Some?, k5, Known);
  }

  /** The answer checks satisfy a test exactly when each of those that are made does. */
  lemma AnswerTest(asked: Expect, turn: Turn, t: Test)
    ensures var text := TextOf(turn); var ran := Strip(text) != "";
            var c := if asked.conflict.Some? then asked.conflict.value else NoConflict();
            AllMeet(AnswerChecks(asked, turn, true), t) <==>
              (turn.completion.MalformedCompletion? ==> Meets(t, Some(false))) && (!ran ==> Meets(t, None)) &&
              (asked.containsAll.Some? ==> Meets(t, IfRan(ran, MentionsAll(text, asked.containsAll.value)))) &&
              (c.sides.Some? ==> Meets(t, IfRan(ran, MentionsSides(text, c.sides.value)))) &&
              (asked.insufficient ==> Meets(t, IfRan(ran, DeclaresInsufficient(text))))
  {
    hide MentionsAll, MentionsSides, DeclaresInsufficient, Strip, AllMeet, AppendIf;
    var text := TextOf(turn);
    var ran := Strip(text) != "";
    var c := if asked.conflict.Some? then asked.conflict.value else NoConflict();
    var k0 := Check(CompletionShape, Some(false));
    var k1 := Check(CompletionPresent, None);
    var k2 := Check(ContainsAll, IfRan(ran, asked.containsAll.Some? && MentionsAll(text, asked.containsAll.value)));
    var k3 := Check(ConflictSides, IfRan(ran, c.sides.Some? && MentionsSides(text, c.sides.value)));
    var k4 := Check(Insufficient, IfRan(ran, DeclaresInsufficient(text)));
    var a0 := AppendIf([], turn.completion.MalformedCompletion?, k0);
    var a1 := AppendIf(a0, Strip(text) == "", k1);
    var a2 := AppendIf(a1, asked.containsAll.Some?, k2);
    var a3 := AppendIf(a2, c.sides.Some?, k3);
    AllMeetAppend([], turn.completion.MalformedCompletion?, k0, t);
    AllMeetAppend(a0, Strip(text) == "", k1, t);
    AllMeetAppend(a1, asked.containsAll.Some?, k2, t);
    AllMeetAppend(a2, c.sides.Some?, k3, t);
    AllMeetAppend(a3, asked.insufficient, k4, t);
  }

  lemma FailedIsSomeFalse(g: Graded)
    ensures OutcomeOf(g) == Failed <==>
              g.hardFail || !AllMeet(g.evidence, NotFalse) || !AllMeet(g.answer, NotFalse)
  {
    forall c | c in g.evidence || c in g.answer ensures c in g.evidence + g.answer {
    }
  }

  lemma KnownAndNotFalse(checks: seq<Check>)
    requires AllMeet(checks, Known)
    ensures AllMeet(checks, NotFalse) <==> AllTrue(checks)
  {
    forall c | c in checks ensures c.ok == Some(true) || c.ok == Some(false) {
      assert c.ok.value == true || c.ok.value == false;
    }
  }

  /** There is a text to check: the completion is not blank. */
  predicate Answered(turn: Turn) {
    turn.completion.Completed? && Strip(turn.completion.text) != ""
  }

  /** A graded case fails exactly when its evidence is not met, its completion is malformed, or there is an
      answer that is not met; a blank answer alone fails nothing. */
  lemma FailedMeans(asked: Expect, turn: Turn)
    ensures OutcomeOf(Grade(asked, turn, true)) == Failed <==>
              !EvidenceMet(asked, turn) || turn.completion.MalformedCompletion? ||
              (Answered(turn) && !AnswerMet(asked, turn))
  {
    FailedIsSomeFalse(Grade(asked, turn, true));
    EvidenceKnown(asked, turn);
    KnownAndNotFalse(EvidenceChecks(asked, turn));
    EvidenceTrue(asked, turn);
    AnswerTest(asked, turn, NotFalse);
    hide AllMeet, EvidenceChecks, AnswerChecks, OutcomeOf, MentionsAll, MentionsSides, DeclaresInsufficient, Strip, AllTrue;
    assert Grade(asked, turn, true).hardFail ==> !EvidenceMet(asked, turn);
    BlankStripsToNothing();
  }

  lemma BlankStripsToNothing()
    ensures Strip("") == ""
  {
  }

  /** A graded case is not run exactly when its evidence is met and the completion is absent or blank. */
  lemma NotRunMeans(asked: Expect, turn: Turn)
    ensures OutcomeOf(Grade(asked, turn, true)) == NotRun <==>
              EvidenceMet(asked, turn) && !turn.completion.MalformedCompletion? && !Answered(turn)
  {
    FailedMeans(asked, turn);
    PassedIsMet(asked, turn);
    hide Grade, EvidenceMet, MentionsAll, MentionsSides, DeclaresInsufficient, Strip;
    BlankStripsToNothing();
  }

  // ----- the expectation, word for word ---------------------------------------------------

  /** The evidence asked for: well-formed hits, none under a barred prefix, one of these, all of those. */
  lemma EvidenceMetMeans(asked: Expect, turn: Turn)
    ensures EvidenceMet(asked, turn) <==>
              turn.hits.Some? && (forall p | p in turn.hits.value :: p != "") &&
              (asked.mustNotCite.Some? ==>
                forall p, bar | p in turn.hits.value && bar in asked.mustNotCite.value :: !(bar <= p)) &&
              (asked.citeAny.Some? ==> exists p | p in asked.citeAny.value :: p in turn.hits.value) &&
              (asked.citeAll.Some? ==> forall p | p in asked.citeAll.value :: p in turn.hits.value) &&
              (asked.conflict.Some? && asked.conflict.value.citeAny.Some? ==>
                exists p | p in asked.conflict.value.citeAny.value :: p in turn.hits.value) &&
              (asked.conflict.Some? && asked.conflict.value.citeAll.Some? ==>
                forall p | p in asked.conflict.value.citeAll.value :: p in turn.hits.value)
  {
  }

  /** A part occurs in a text exactly when the text is something, the part, and something. */
  lemma ContainsMeans(text: string, part: string)
    ensures Contains(text, part) <==> exists a: string, b: string :: text == a + part + b
  {
    if i :| 0 <= i <= |text| - |part| && part <= text[i..] {
      assert text == text[..i] + part + text[i + |part|..];
    }
    if a: string, b: string :| text == a + part + b {
      assert text[|a|..] == part + b;
    }
  }

  /** The answer asked for: every term, a term of each side, and a declaration of insufficiency, regardless
      of the case of letters. */
  lemma AnswerMetMeans(asked: Expect, turn: Turn)
    ensures AnswerMet(asked, turn) <==>
              Answered(turn) &&
              (asked.containsAll.Some? ==>
                forall t | t in asked.containsAll.value :: Contains(Lower(turn.completion.text), Lower(t))) &&
              (asked.conflict.Some? && asked.conflict.value.sides.Some? ==>
                forall side | side in asked.conflict.value.sides.value ::
                  exists t | t in side :: Contains(Lower(turn.completion.text), Lower(t))) &&
              (asked.insufficient ==> exists m | m in MARKERS :: Contains(Lower(turn.completion.text), m))
  {
    BlankStripsToNothing();
    hide Contains, Lower, Strip, MARKERS;
  }

  /** Letters A to Z become small, and nothing else changes. */
  lemma LowerMeans(s: string, i: nat)
    requires i < |s|
    ensures |Lower(s)| == |s|
    ensures 'A' <= s[i] <= 'Z' ==> Lower(s)[i] as int == s[i] as int + 32
    ensures !('A' <= s[i] <= 'Z') ==> Lower(s)[i] == s[i]
  {
  }

  /** The verdict ignores the order, and the repetition, of the hits. */
  lemma VerdictIgnoresHitOrder(asked: Expect, turn: Turn, other: Turn, complete: bool)
    requires turn.completion == other.completion && turn.hits.Some? && other.hits.Some?
    requires forall p :: p in turn.hits.value <==> p in other.hits.value
    ensures Grade(asked, turn, complete) == Grade(asked, other, complete)
  {
    hide AppendIf;
  }
}
