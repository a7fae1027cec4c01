/** What each policy scores against the answer key, for every split, family and size. */
module PolicyScores {
  import opened AnswerKey
  import opened Grader
  import opened Notes
  import opened Responder
  import opened Text
  import opened Utf16
  import opened Wrappers

  // ----- paths -----------------------------------------------------------------

  lemma PrefixOfConcat(s: string, t: string, p: string)
    requires |p| <= |s|
    ensures StartsWith(s + t, p) <==> StartsWith(s, p)
  {
    assert (s + t)[..|p|] == s[..|p|];
  }

  lemma DashEndsPrefix(split: string, rest: string)
    requires rest != "" && rest[0] == '-'
    ensures StartsWith(split + rest, "forbidden/") <==> StartsWith(split, "forbidden/")
  {
    var p := "forbidden/";
    if |split| >= |p| {
      PrefixOfConcat(split, rest, p);
    } else {
      assert (split + rest)[|split|] == '-' && p[|split|] != '-';
    }
  }

  lemma IdIsSplitThenDash(split: string, f: Family, i: nat, tail: string) returns (rest: string)
    ensures rest != "" && rest[0] == '-' && HistoryId(split, f, i) + tail == split + rest
  {
    var a, b := FamilyName(f), Pad3(i);
    rest := "-" + (a + ("-" + (b + tail)));
    Assoc(split + "-" + a + "-", b, tail);
    Assoc(split + "-" + a, "-", b + tail);
    Assoc(split + "-", a, "-" + (b + tail));
    Assoc(split, "-", a + ("-" + (b + tail)));
  }

  /** A path of a history starts with "forbidden/" exactly when the split's name does. */
  lemma ForbiddenPath(split: string, f: Family, i: nat, tail: string)
    ensures StartsWith(HistoryId(split, f, i) + tail, "forbidden/") <==> StartsWith(split, "forbidden/")
  {
    var rest := IdIsSplitThenDash(split, f, i, tail);
    DashEndsPrefix(split, rest);
  }

  /** The prefixes of the key, applied to a path of the same history. */
  lemma PathFacts(split: string, f: Family, i: nat, digit: char)
    ensures var hid := HistoryId(split, f, i); var path := hid + "/" + [digit];
            (StartsWith(path, "forbidden/") <==> StartsWith(split, "forbidden/")) &&
            !StartsWith(path, hid + "/forbidden/") && StartsWith(path, hid + "/") &&
            forall c :: StartsWith(path, hid + "/" + [c]) <==> c == digit
  {
    var hid := HistoryId(split, f, i);
    var path := hid + "/" + [digit];
    Assoc(hid, "/", [digit]);
    ForbiddenPath(split, f, i, "/" + [digit]);
    assert path[..|hid| + 1] == hid + "/";
    assert |hid + "/forbidden/"| > |path|;
    forall c ensures StartsWith(path, hid + "/" + [c]) <==> c == digit {
      assert (hid + "/" + [c])[|hid| + 1] == c && path[|hid| + 1] == digit;
    }
  }

  lemma EventPaths(split: string, f: Family, i: nat)
    ensures var hid := HistoryId(split, f, i);
            FirstEvent(hid, i).id == hid + "/" + ['0'] && SecondEvent(hid, f, i).id == hid + "/" + ['1']
  {
    var hid := HistoryId(split, f, i);
    Assoc(hid, "/", "0");
    Assoc(hid, "/", "1");
  }

  // ----- the evidence checks --------------------------------------------------------

  /** A selection from a history: any of its events, in any order. */
  ghost predicate SelectedFrom(h: History, selected: seq<Event>) {
    forall x | x in selected :: x in h.events
  }

  ghost predicate SameSet(a: seq<Event>, b: seq<Event>) {
    forall x :: x in a <==> x in b
  }

  lemma {:induction false} UnexpectedAre(events: seq<Event>, wanted: seq<Event>)
    ensures forall p :: p in Unexpected(events, wanted) <==> exists x | x in events :: x !in wanted && x.id == p
  {
    if events != [] {
      UnexpectedAre(events[1..], wanted);
      assert events == [events[0]] + events[1..];
    }
  }

  function TurnOf(selected: seq<Event>): Turn {
    Turn(Some(Paths(selected)), Completed(AnswerText(selected)))
  }

  lemma HitsAreValid(split: string, f: Family, i: nat, selected: seq<Event>)
    requires SelectedFrom(HistoryOf(split, f, i), selected)
    ensures ValidHits(TurnOf(selected)) && PathsOf(TurnOf(selected)) == Paths(selected)
  {
    EventPaths(split, f, i);
    EventsAre(split, f, i);
    forall p | p in Paths(selected) ensures p != "" {
      PathsAre(selected);
      var x :| x in selected && x.id == p;
      assert x in HistoryOf(split, f, i).events;
    }
  }

  /** The barred prefixes of a case. */
  lemma BarredPrefixes(h: History)
    ensures AskedOf(h).mustNotCite.Some?
    ensures forall pre :: pre in AskedOf(h).mustNotCite.value <==>
              pre == "forbidden/" || pre == h.id + "/forbidden/" ||
              if ExpectedEvents(h) == [] then pre == h.id + "/" else pre in Unexpected(h.events, ExpectedEvents(h))
  {
    var pres := AskedOf(h).mustNotCite.value;
    assert pres[0] == "forbidden/" && pres[1] == h.id + "/forbidden/";
    if ExpectedEvents(h) == [] {
      assert pres[2] == h.id + "/";
    } else {
      var extra := Unexpected(h.events, ExpectedEvents(h));
      assert forall k | 0 <= k < |extra| :: pres[2 + k] == extra[k];
    }
  }

  /** Two events of a history: one's path starts with the other's only when they are the same. */
  lemma EventPathsDiffer(split: string, f: Family, i: nat, x: Event, y: Event)
    requires x in HistoryOf(split, f, i).events && y in HistoryOf(split, f, i).events
    ensures var h := HistoryOf(split, f, i);
            (StartsWith(x.id, y.id) <==> x == y) && (StartsWith(x.id, "forbidden/") <==> StartsWith(split, "forbidden/")) &&
            !StartsWith(x.id, h.id + "/forbidden/") && StartsWith(x.id, h.id + "/")
  {
    EventsAre(split, f, i);
    EventPaths(split, f, i);
    PathFacts(split, f, i, '0');
    PathFacts(split, f, i, '1');
  }

  /** One selected event leaks exactly when the split is barred or the event is not expected. */
  lemma EventLeaks(split: string, f: Family, i: nat, x: Event)
    requires x in HistoryOf(split, f, i).events
    ensures var h := HistoryOf(split, f, i);
            (exists pre | pre in AskedOf(h).mustNotCite.value :: StartsWith(x.id, pre)) <==>
              StartsWith(split, "forbidden/") || x !in ExpectedEvents(h)
  {
    hide AskedOf, HistoryOf, StartsWith, Unexpected;
    var h := HistoryOf(split, f, i);
    BarredPrefixes(h);
    var pres, wanted := AskedOf(h).mustNotCite.value, ExpectedEvents(h);
    UnexpectedAre(h.events, wanted);
    EventPathsDiffer(split, f, i, x, x);
    if pre :| pre in pres && StartsWith(x.id, pre) && !StartsWith(split, "forbidden/") && wanted != [] {
      var y :| y in h.events && y !in wanted && y.id == pre;
      EventPathsDiffer(split, f, i, x, y);
    }
    if StartsWith(split, "forbidden/") {
      assert "forbidden/" in pres;
    } else if x !in wanted {
      assert (if wanted == [] then h.id + "/" else x.id) in pres;
    }
  }

  lemma LeakedIf(split: string, f: Family, i: nat, selected: seq<Event>)
    requires SelectedFrom(HistoryOf(split, f, i), selected)
    ensures var h := HistoryOf(split, f, i);
            Leaked(AskedOf(h), TurnOf(selected)) <==>
              selected != [] && (StartsWith(split, "forbidden/") || exists x | x in selected :: x !in ExpectedEvents(h))
  {
    var h := HistoryOf(split, f, i);
    HitsAreValid(split, f, i, selected);
    PathsAre(selected);
    forall x | x in selected
      ensures (exists pre | pre in AskedOf(h).mustNotCite.value :: StartsWith(x.id, pre)) <==>
                StartsWith(split, "forbidden/") || x !in ExpectedEvents(h)
    {
      EventLeaks(split, f, i, x);
    }
    if selected != [] && (StartsWith(split, "forbidden/") || exists x | x in selected :: x !in ExpectedEvents(h)) {
      assert selected[0] in selected;
      var x :| x in selected && (StartsWith(split, "forbidden/") || x !in ExpectedEvents(h));
      assert x.id in Paths(selected);
    }
  }

  lemma CitesAllIf(split: string, f: Family, i: nat, selected: seq<Event>)
    requires SelectedFrom(HistoryOf(split, f, i), selected)
    ensures var h := HistoryOf(split, f, i);
            HasAll(Paths(selected), Ids(ExpectedEvents(h))) <==> forall x | x in ExpectedEvents(h) :: x in selected
  {
    var h := HistoryOf(split, f, i);
    var wanted := ExpectedEvents(h);
    EventsAre(split, f, i);
    PathsAre(selected);
    PathsAre(wanted);
    forall x | x in wanted ensures x in h.events {
    }
    if HasAll(Paths(selected), Ids(wanted)) {
      forall x | x in wanted ensures x in selected {
        assert x.id in Paths(wanted);
        var y :| y in selected && y.id == x.id;
      }
    }
  }

  lemma EvidenceVerdict(split: string, f: Family, i: nat, selected: seq<Event>)
    requires SelectedFrom(HistoryOf(split, f, i), selected)
    ensures var h := HistoryOf(split, f, i);
            EvidenceMet(AskedOf(h), TurnOf(selected)) <==>
              SameSet(selected, ExpectedEvents(h)) && (selected != [] ==> !StartsWith(split, "forbidden/"))
  {
    hide HasAll, Leaks, ValidHits, PathsOf, Paths, StartsWith, HistoryOf, Leaked;
    var h := HistoryOf(split, f, i);
    HitsAreValid(split, f, i, selected);
    LeakedIf(split, f, i, selected);
    CitesAllIf(split, f, i, selected);
    if ExpectedEvents(h) == [] && selected != [] {
      assert selected[0] in selected;
    }
  }

  // ----- the answer checks ------------------------------------------------------------

  lemma LowerConcat(a: string, b: string)
    ensures Lower(a + b) == Lower(a) + Lower(b)
  {
  }

  lemma MentionsMiddle(a: string, term: string, b: string)
    ensures Mentions(a + term + b, term)
  {
    LowerConcat(a + term, b);
    LowerConcat(a, term);
    var text := Lower(a + term + b);
    assert text == Lower(a) + Lower(term) + Lower(b);
    assert Lower(term) <= text[|a|..];
  }

  /** Every joined value stands in the joined text. */
  lemma {:induction false} JoinHolds(vs: seq<string>, v: string) returns (a: string, b: string)
    requires v in vs
    ensures Join(" | ", vs) == a + v + b
  {
    if |vs| == 1 {
      a, b := "", "";
      assert Join(" | ", vs) == "" + v + "";
    } else if vs[0] == v {
      a, b := "", " | " + Join(" | ", vs[1..]);
      assert vs[0] + " | " + Join(" | ", vs[1..]) == "" + v + b;
    } else {
      assert vs == [vs[0]] + vs[1..];
      var a', b' := JoinHolds(vs[1..], v);
      a, b := vs[0] + " | " + a', b';
      assert vs[0] + " | " + (a' + v + b') == a + v + b;
    }
  }

  lemma {:induction false} KeepsFirst(s: string)
    requires s != "" && !IsSpace(s[0])
    ensures Strip(s) != ""
  {
    assert StripLeft(s) == s;
    FirstSurvives(s);
  }

  lemma {:induction false} FirstSurvives(s: string)
    requires s != "" && !IsSpace(s[0])
    ensures StripRight(s) != ""
  {
    if |s| > 1 && IsSpace(s[|s| - 1]) {
      FirstSurvives(s[..|s| - 1]);
    }
  }

  lemma ValuesAre(events: seq<Event>)
    ensures forall v :: v in Values(events) <==> exists x | x in events :: x.value == v
  {
    forall x | x in events ensures x.value in Values(events) {
      var i :| 0 <= i < |events| && events[i] == x;
      assert Values(events)[i] == x.value;
    }
    forall v | v in Values(events) ensures exists x | x in events :: x.value == v {
      var i :| 0 <= i < |Values(events)| && Values(events)[i] == v;
      assert events[i] in events;
    }
  }

  /** The rendered text of a non-empty selection mentions every selected value, and a conflict when
      there are two. */
  lemma TextMentions(selected: seq<Event>, v: string)
    requires SortedValues(selected) != []
    ensures v in SortedValues(selected) ==> Mentions(AnswerText(selected), v)
    ensures |SortedValues(selected)| > 1 ==> Mentions(AnswerText(selected), "conflict")
  {
    hide Mentions, SortedValues, Join;
    var vs := SortedValues(selected);
    var lead := if |vs| > 1 then "conflict: " else "";
    if v in vs {
      var a, b := JoinHolds(vs, v);
      MentionsAfter(lead, a, v, b);
    }
    if |vs| > 1 {
      MentionsMiddle("", "conflict", ": " + Join(" | ", vs));
      assert "" + "conflict" + (": " + Join(" | ", vs)) == "conflict: " + Join(" | ", vs);
    }
  }

  lemma MentionsAfter(lead: string, a: string, v: string, b: string)
    ensures Mentions(lead + (a + v + b), v)
  {
    MentionsMiddle(lead + a, v, b);
    assert lead + a + v + b == lead + (a + v + b);
  }

  lemma NothingSelectedAnswer()
    ensures AnswerText([]) == "insufficient evidence"
    ensures Strip(AnswerText([])) != "" && DeclaresInsufficient(AnswerText([]))
  {
    var t := "insufficient evidence";
    KeepsFirst(t);
    assert forall k | 0 <= k < |t| :: LowerChar(t[k]) == t[k];
    assert Lower(t) == t;
    assert t <= Lower(t)[0..];
    assert MARKERS[0] == t;
    assert t in MARKERS;
  }

  lemma ValuesOfHistory(split: string, f: Family, i: nat)
    ensures var h := HistoryOf(split, f, i); var e, d := FirstEvent(h.id, i), SecondEvent(h.id, f, i);
            CodePointLess(e.value, NewValue(i)) &&
            (ExpectedEvents(h) == [] <==> f in {Removed, Revoked}) &&
            (f in {Stable, Past} ==> ExpectedEvents(h) == [e]) && (f == Correction ==> ExpectedEvents(h) == [d]) &&
            (f == Conflict ==> ExpectedEvents(h) == [e, d]) && (f in {Correction, Conflict} ==> d.value == NewValue(i))
  {
    assert CodePoints(OldValue(i))[0] == 'a' as int && CodePoints(NewValue(i))[0] == 'v' as int;
  }

  /** The distinct values of an expected selection, in order. */
  lemma ExpectedValues(split: string, f: Family, i: nat, selected: seq<Event>)
    requires var h := HistoryOf(split, f, i); SameSet(selected, ExpectedEvents(h)) && ExpectedEvents(h) != []
    ensures SortedValues(selected) == Values(ExpectedEvents(HistoryOf(split, f, i)))
  {
    var h := HistoryOf(split, f, i);
    var wanted := ExpectedEvents(h);
    ValuesOfHistory(split, f, i);
    SortedValuesAscend(selected);
    ValuesAre(wanted);
    assert Ascending(Values(wanted));
    forall v ensures v in SortedValues(selected) <==> v in Values(wanted) {
      if v in SortedValues(selected) {
        var x :| x in selected && x.value == v;
        assert x in wanted;
      }
      if v in Values(wanted) {
        var x :| x in wanted && x.value == v;
        assert x in selected;
      }
    }
    AscendingIsUnique(SortedValues(selected), Values(wanted));
  }

  lemma SomeEvent(events: seq<Event>)
    ensures events != [] ==> exists x :: x in events
  {
    if events != [] { assert events[0] in events; }
  }

  lemma AnswerVerdict(split: string, f: Family, i: nat, selected: seq<Event>)
    requires SameSet(selected, ExpectedEvents(HistoryOf(split, f, i)))
    ensures AnswerMet(AskedOf(HistoryOf(split, f, i)), TurnOf(selected))
  {
    var h := HistoryOf(split, f, i);
    var wanted := ExpectedEvents(h);
    if wanted == [] {
      SomeEvent(selected);
      NothingSelectedAnswer();
    } else {
      ValuesOfHistory(split, f, i);
      ExpectedValues(split, f, i, selected);
      var vs := SortedValues(selected);
      var terms := AskedOf(h).containsAll.value;
      forall t | t in terms ensures Mentions(AnswerText(selected), t) {
        TextMentions(selected, t);
        if t !in vs { assert f == Conflict && t == "conflict" && |vs| == 2; }
      }
      AnswerStarts(selected);
    }
  }

  lemma AnswerStarts(selected: seq<Event>)
    requires SortedValues(selected) != [] && SortedValues(selected)[0] != "" && !IsSpace(SortedValues(selected)[0][0])
    ensures Strip(AnswerText(selected)) != ""
  {
    var vs := SortedValues(selected);
    assert Join(" | ", vs)[0] == vs[0][0];
    KeepsFirst(AnswerText(selected));
  }

  // ----- the score table ------------------------------------------------------------------

  /** The declared result of each policy: both note policies pass everything, no memory passes what has no
      answer, and the ablation without supersession fails corrections and removals. */
  predicate PolicyPasses(arm: Arm, f: Family) {
    match arm
    case NoMemory => f in {Removed, Revoked}
    case GovernanceAblation => f !in {Correction, Removed}
    case _ => true
  }

  /** The policy cites something for this family. */
  predicate Cites(arm: Arm, f: Family) {
    PicksFirst(arm, f) || PicksSecond(arm, f)
  }

  lemma SelectionMatches(split: string, f: Family, i: nat, arm: Arm, selected: seq<Event>)
    requires arm != Munarium
    requires var h := HistoryOf(split, f, i);
             forall x :: x in selected <==>
               (x == FirstEvent(h.id, i) && PicksFirst(arm, f)) || (x == SecondEvent(h.id, f, i) && PicksSecond(arm, f))
    ensures var h := HistoryOf(split, f, i);
            SelectedFrom(h, selected) && (selected != [] <==> Cites(arm, f)) &&
            (SameSet(selected, ExpectedEvents(h)) <==> PolicyPasses(arm, f))
  {
    var h := HistoryOf(split, f, i);
    EventsAre(split, f, i);
    ValuesOfHistory(split, f, i);
    SomeEvent(selected);
    var e, d := FirstEvent(h.id, i), SecondEvent(h.id, f, i);
    assert e != d;
    assert e in selected <==> PicksFirst(arm, f);
    assert d in selected <==> PicksSecond(arm, f);
    assert (e in ExpectedEvents(h) <==> f in {Stable, Past, Conflict}) &&
           (d in ExpectedEvents(h) <==> f in {Correction, Conflict});
  }

  /** For every split, family, size and order of hits, each policy's graded outcome is the declared one,
      except that whatever is cited from a split named "forbidden/..." fails. The query itself fails only
      when the evidence exceeds the context. */
  lemma AnswerKeyAgreesWithPolicies(printed: Printer, contextChars: nat, split: string, f: Family, i: nat, arm: Arm,
                                    hits: seq<Event>)
    requires arm != Munarium && multiset(hits) == multiset(HistoryOf(split, f, i).events)
    ensures var h := HistoryOf(split, f, i);
            var turn := QueryArm(printed, contextChars, h, arm, hits);
            TurnEvents(h, arm, hits).Some? &&
            (turn.Ok? <==> ContextChars(printed, TurnEvents(h, arm, hits).value) <= contextChars) &&
            (turn.Ok? ==>
              (OutcomeOf(Grade(AskedOf(h), turn.value, true)) == Passed <==>
                PolicyPasses(arm, f) && (Cites(arm, f) ==> !StartsWith(split, "forbidden/"))))
  {
    hide Grade, AskedOf, HistoryOf, StartsWith, PolicyPasses, Cites, OutcomeOf;
    var h := HistoryOf(split, f, i);
    SameEvents(hits, h.events);
    ArmPicks(split, f, i, arm, hits);
    var selected := TurnEvents(h, arm, hits).value;
    SelectionMatches(split, f, i, arm, selected);
    EvidenceVerdict(split, f, i, selected);
    if SameSet(selected, ExpectedEvents(h)) {
      AnswerVerdict(split, f, i, selected);
    }
    PassedIsMet(AskedOf(h), TurnOf(selected));
  }

  /** The fixture's own cases: each belongs to a history of the fixture, and grading a policy's turn for that
      history against the case's own expectation gives the declared result; no id is repeated, and no history
      has a task twice. */
  lemma FixtureAgreesWithPolicies(printed: Printer, contextChars: nat, split: string, perFamily: nat, c: Case)
    returns (h: History)
    requires c in FixtureOf(split, FAMILIES, perFamily).1
    ensures h in FixtureOf(split, FAMILIES, perFamily).0 && h.id == c.historyId && h.family == c.family && c.split == split
    ensures c.arm != Munarium ==>
              forall hits | multiset(hits) == multiset(h.events) ::
                var turn := QueryArm(printed, contextChars, h, c.arm, hits);
                turn.Ok? ==>
                  (OutcomeOf(Grade(c.asked, turn.value, true)) == Passed <==>
                    PolicyPasses(c.arm, c.family) && (Cites(c.arm, c.family) ==> !StartsWith(split, "forbidden/")))
  {
    FixtureHolds(split, FAMILIES, perFamily);
    var f, i: nat, a :| f in FAMILIES && i < perFamily && a in ARMS && c == CaseOf(split, HistoryOf(split, f, i), a);
    h := HistoryOf(split, f, i);
    assert c.asked == AskedOf(h) && c.arm == a && c.historyId == h.id && c.family == f == h.family && c.split == split;
    hide FixtureOf, CaseOf, HistoryOf, QueryArm, Grade, OutcomeOf, PolicyPasses, Cites, StartsWith, AskedOf;
    if a != Munarium {
      forall hits | multiset(hits) == multiset(h.events)
        ensures var turn := QueryArm(printed, contextChars, h, a, hits);
                turn.Ok? ==>
                  (OutcomeOf(Grade(c.asked, turn.value, true)) == Passed <==>
                    PolicyPasses(a, f) && (Cites(a, f) ==> !StartsWith(split, "forbidden/")))
      {
        AnswerKeyAgreesWithPolicies(printed, contextChars, split, f, i, a, hits);
      }
    }
  }

  lemma FamiliesDiffer()
    ensures forall i, j | 0 <= i < j < |FAMILIES| :: FAMILIES[i] != FAMILIES[j]
  {
  }

  lemma FixtureRepeatsNothing(split: string, perFamily: nat, i: nat, j: nat)
    requires i < j < |FixtureOf(split, FAMILIES, perFamily).1|
    ensures var cs := FixtureOf(split, FAMILIES, perFamily).1;
            cs[i].id != cs[j].id && !(cs[i].historyId == cs[j].historyId && cs[i].taskId == cs[j].taskId)
  {
    FamiliesDiffer();
    FixtureDistinct(split, FAMILIES, perFamily);
    FixtureHolds(split, FAMILIES, perFamily);
    var cs := FixtureOf(split, FAMILIES, perFamily).1;
    var c, d := cs[i], cs[j];
    assert c in cs && d in cs;
    hide FixtureOf, HistoryOf, HistoryId, AskedOf;
    var f, k: nat, a :| f in FAMILIES && k < perFamily && a in ARMS && c == CaseOf(split, HistoryOf(split, f, k), a);
    var g, l: nat, b :| g in FAMILIES && l < perFamily && b in ARMS && d == CaseOf(split, HistoryOf(split, g, l), b);
    HistoryNames(split, f, k, g, l);
    if c.historyId == d.historyId && c.taskId == d.taskId {
      TaskTellsArm(f, a, b);
    }
  }

  lemma TaskTellsArm(f: Family, a: Arm, b: Arm)
    requires FamilyName(f) + ":" + ArmName(a) == FamilyName(f) + ":" + ArmName(b)
    ensures a == b
  {
    var pre := FamilyName(f) + ":";
    hide FamilyName, ArmName;
    assert (pre + ArmName(a))[|pre|..] == ArmName(a) && (pre + ArmName(b))[|pre|..] == ArmName(b);
    ArmNamesDiffer(a, b);
  }

  /** A split on which the key contradicts a competent policy: its own citation counts as a leak. */
  lemma ForbiddenSplitFails()
    ensures var split := "forbidden/x"; var h := HistoryOf(split, Stable, 0);
            var turn := QueryArm(_ => 100, 4096, h, VersionedNotes, h.events);
            turn.Ok? && OutcomeOf(Grade(AskedOf(h), turn.value, true)) == Failed
  {
    var split := "forbidden/x";
    var h := HistoryOf(split, Stable, 0);
    ArmPicks(split, Stable, 0, VersionedNotes, h.events);
    var selected := TurnEvents(h, VersionedNotes, h.events).value;
    SelectionMatches(split, Stable, 0, VersionedNotes, selected);
    LeakedIf(split, Stable, 0, selected);
    assert split[..10] == "forbidden/";
    OneEventSelected(split);
  }

  /** The note of a stable history is its one event. */
  lemma OneEventSelected(split: string)
    ensures var h := HistoryOf(split, Stable, 0); TurnEvents(h, VersionedNotes, h.events) == Some([FirstEvent(h.id, 0)])
  {
    var h := HistoryOf(split, Stable, 0);
    var e := FirstEvent(h.id, 0);
    assert h.events == [e] && e in h.events && e.at <= h.asOf;
    SnapshotsRefineResolution(h.events, h.asOf);
    assert [e][1..] == [];
    assert Eligible([e], h.asOf) == [e];
    assert e.value[0] == 'a' && REMOVED[0] == '_';
    assert Standing([e], {}) == [e];
    assert Superseded([e]) == {};
  }

  /** The graded verdict of retrieval-based policies ignores the order of the hits. */
  lemma VerdictIgnoresRetrievalOrder(printed: Printer, contextChars: nat, h: History, arm: Arm, hits: seq<Event>,
                                     other: seq<Event>, asked: Expect)
    requires arm in {ConventionalRetrieval, GovernanceAblation} && multiset(hits) == multiset(other)
    ensures var t, u := QueryArm(printed, contextChars, h, arm, hits), QueryArm(printed, contextChars, h, arm, other);
            (t.Ok? <==> u.Ok?) && (t.Ok? ==> Grade(asked, t.value, true) == Grade(asked, u.value, true))
  {
    var a, b := TurnEvents(h, arm, hits).value, TurnEvents(h, arm, other).value;
    SelectionPermutes(h, arm, hits, other);
    RespondIgnoresOrder(printed, a, b, contextChars);
    if ContextChars(printed, a) <= contextChars {
      VerdictIgnoresHitOrder(asked, TurnOf(a), TurnOf(b), true);
    }
  }

  lemma SelectionPermutes(h: History, arm: Arm, hits: seq<Event>, other: seq<Event>)
    requires arm in {ConventionalRetrieval, GovernanceAblation} && multiset(hits) == multiset(other)
    ensures var a, b := TurnEvents(h, arm, hits).value, TurnEvents(h, arm, other).value;
            multiset(a) == multiset(b)
  {
    var x, y := Eligible(hits, h.asOf), Eligible(other, h.asOf);
    EligiblePermutes(hits, other, h.asOf);
    if h.authorizedNow && arm == ConventionalRetrieval {
      ResolvePermutes(x, y, h.asOf);
    } else if h.authorizedNow {
      StandingPermutes(x, y, {});
    }
  }
}
