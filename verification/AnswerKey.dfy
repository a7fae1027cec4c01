/** Generated fixtures, the answer key authored with them, and what each policy scores against it. */
module AnswerKey {
  import opened Grader
  import opened Notes
  import opened Responder
  import opened Text
  import opened Utf16
  import opened Wrappers

  datatype Family = Stable | Correction | Past | Conflict | Removed | Revoked

  datatype Arm = NoMemory | VersionedNotes | ConventionalRetrieval | Munarium | GovernanceAblation

  const FAMILIES: seq<Family> := [Stable, Correction, Past, Conflict, Removed, Revoked]
  const ARMS: seq<Arm> := [NoMemory, VersionedNotes, ConventionalRetrieval, Munarium, GovernanceAblation]

  function FamilyName(f: Family): string {
    match f
    case Stable => "stable"
    case Correction => "correction"
    case Past => "past"
    case Conflict => "conflict"
    case Removed => "removed"
    case Revoked => "revoked"
  }

  function ArmName(a: Arm): string {
    match a
    case NoMemory => "no_memory"
    case VersionedNotes => "versioned_notes"
    case ConventionalRetrieval => "conventional_retrieval"
    case Munarium => "munarium"
    case GovernanceAblation => "governance_ablation"
  }

  datatype History = History(id: string, family: Family, events: seq<Event>, authorizedNow: bool, asOf: int)

  datatype Case = Case(id: string, historyId: string, taskId: string, split: string, ask: string,
                       asked: Expect, arm: Arm, family: Family)

  // ----- the fixture -----------------------------------------------------------

  /** f"{i:03}" */
  function Pad3(i: nat): string {
    var s := Decimal(i);
    if |s| == 1 then "00" + s else if |s| == 2 then "0" + s else s
  }

  function HistoryId(split: string, f: Family, i: nat): string {
    split + "-" + FamilyName(f) + "-" + Pad3(i)
  }

  function OldValue(i: nat): string { "amber-" + Pad3(i) }

  function NewValue(i: nat): string { "violet-" + Pad3(i) }

  function FirstEvent(hid: string, i: nat): Event {
    Event(hid + "/0", 1, "fact", OldValue(i), None)
  }

  function SecondEvent(hid: string, f: Family, i: nat): Event {
    if f == Conflict then Event(hid + "/1", 2, "fact", NewValue(i), None)
    else Event(hid + "/1", 2, "correction", if f == Removed then REMOVED else NewValue(i), Some(hid + "/0"))
  }

  function EventsOf(hid: string, f: Family, i: nat): seq<Event> {
    if f in {Correction, Past, Removed, Conflict} then [FirstEvent(hid, i), SecondEvent(hid, f, i)]
    else [FirstEvent(hid, i)]
  }

  function HistoryOf(split: string, f: Family, i: nat): History {
    var hid := HistoryId(split, f, i);
    History(hid, f, EventsOf(hid, f, i), f != Revoked, if f in {Past, Revoked} then 1 else 2)
  }

  /** The observations the key expects, authored by family. */
  function ExpectedEvents(h: History): seq<Event> {
    if h.events == [] then []
    else if h.family in {Stable, Past} then [h.events[0]]
    else if h.family == Correction then [h.events[|h.events| - 1]]
    else if h.family == Conflict then h.events
    else []
  }

  function Ids(events: seq<Event>): seq<string> {
    Paths(events)
  }

  function Values(events: seq<Event>): seq<string> {
    seq(|events|, i requires 0 <= i < |events| => events[i].value)
  }

  function Unexpected(events: seq<Event>, wanted: seq<Event>): seq<string> {
    if events == [] then []
    else (if events[0] in wanted then [] else [events[0].id]) + Unexpected(events[1..], wanted)
  }

  function AskedOf(h: History): Expect {
    var wanted := ExpectedEvents(h);
    var barred := ["forbidden/", h.id + "/forbidden/"];
    if wanted != [] then
      Expect(None, Some(Ids(wanted)), Some(barred + Unexpected(h.events, wanted)), None,
             Some(Values(wanted) + if h.family == Conflict then ["conflict"] else []), false)
    else
      Expect(None, None, Some(barred + [h.id + "/"]), None, None, true)
  }

  function CaseOf(split: string, h: History, arm: Arm): Case {
    Case(h.id + ":" + ArmName(arm), h.id, FamilyName(h.family) + ":" + ArmName(arm), split,
         "What is " + h.id + "'s value at time " + Text.Str(h.asOf) + "?", AskedOf(h), arm, h.family)
  }

  function CasesOf(split: string, h: History, n: nat): seq<Case>
    requires n <= |ARMS|
  {
    seq(n, i requires 0 <= i < n => CaseOf(split, h, ARMS[i]))
  }

  /** Histories and cases of the first n members of a family. */
  function OneFamily(split: string, f: Family, n: nat): (seq<History>, seq<Case>) {
    if n == 0 then ([], [])
    else
      var before := OneFamily(split, f, n - 1);
      var h := HistoryOf(split, f, n - 1);
      (before.0 + [h], before.1 + CasesOf(split, h, 5))
  }

  function FixtureOf(split: string, fs: seq<Family>, perFamily: nat): (seq<History>, seq<Case>) {
    if fs == [] then ([], [])
    else
      var before := FixtureOf(split, fs[..|fs| - 1], perFamily);
      var last := OneFamily(split, fs[|fs| - 1], perFamily);
      (before.0 + last.0, before.1 + last.1)
  }

  lemma CasesOneMore(split: string, h: History, n: nat)
    requires n < |ARMS|
    ensures CasesOf(split, h, n + 1) == CasesOf(split, h, n) + [CaseOf(split, h, ARMS[n])]
    ensures CasesOf(split, h, 0) == []
  {
  }

  /** The loop over the arms of one history. */
  method AddCases(cases: seq<Case>, split: string, h: History) returns (r: seq<Case>)
    ensures r == cases + CasesOf(split, h, 5)
  {
    hide CasesOf, CaseOf;
    r := cases;
    CasesOneMore(split, h, 0);
    for a := 0 to |ARMS|
      invariant r == cases + CasesOf(split, h, a)
    {
      CasesOneMore(split, h, a);
      r := r + [CaseOf(split, h, ARMS[a])];
    }
  }

  method Fixture(split: string, perFamily: nat) returns (histories: seq<History>, cases: seq<Case>)
    ensures (histories, cases) == FixtureOf(split, FAMILIES, perFamily)
  {
    hide HistoryOf, CasesOf;
    histories, cases := [], [];
    for f := 0 to |FAMILIES|
      invariant (histories, cases) == FixtureOf(split, FAMILIES[..f], perFamily)
    {
      var family := FAMILIES[f];
      ghost var hs, cs := histories, cases;
      for i := 0 to perFamily
        invariant histories == hs + OneFamily(split, family, i).0
        invariant cases == cs + OneFamily(split, family, i).1
      {
        var history := HistoryOf(split, family, i);
        histories := histories + [history];
        cases := AddCases(cases, split, history);
      }
      assert FAMILIES[..f + 1][..f] == FAMILIES[..f];
    }
    assert FAMILIES[..|FAMILIES|] == FAMILIES;
  }

  lemma {:induction false} OneFamilyHolds(split: string, f: Family, n: nat)
    ensures forall h :: h in OneFamily(split, f, n).0 <==> exists i: nat :: i < n && h == HistoryOf(split, f, i)
    ensures forall c :: c in OneFamily(split, f, n).1 <==>
              exists i: nat, a :: i < n && a in ARMS && c == CaseOf(split, HistoryOf(split, f, i), a)
  {
    hide HistoryOf, CaseOf;
    if n > 0 {
      OneFamilyHolds(split, f, n - 1);
      var h := HistoryOf(split, f, n - 1);
      CasesAre(split, h);
    }
  }

  lemma CasesAre(split: string, h: History)
    ensures forall c :: c in CasesOf(split, h, 5) <==> exists a :: a in ARMS && c == CaseOf(split, h, a)
  {
    hide CaseOf;
    forall a | a in ARMS ensures CaseOf(split, h, a) in CasesOf(split, h, 5) {
      var k :| 0 <= k < |ARMS| && ARMS[k] == a;
      assert CasesOf(split, h, 5)[k] == CaseOf(split, h, a);
    }
    forall c | c in CasesOf(split, h, 5) ensures exists a :: a in ARMS && c == CaseOf(split, h, a) {
      var k :| 0 <= k < 5 && CasesOf(split, h, 5)[k] == c;
      assert ARMS[k] in ARMS;
    }
  }

  /** The fixture holds exactly the histories of the given families and sizes, and one case for every
      history and arm. */
  lemma {:induction false} FixtureHolds(split: string, fs: seq<Family>, n: nat)
    ensures forall h :: h in FixtureOf(split, fs, n).0 <==>
              exists f, i: nat :: f in fs && i < n && h == HistoryOf(split, f, i)
    ensures forall c :: c in FixtureOf(split, fs, n).1 <==>
              exists f, i: nat, a :: f in fs && i < n && a in ARMS && c == CaseOf(split, HistoryOf(split, f, i), a)
  {
    hide HistoryOf, CaseOf, OneFamily;
    if fs != [] {
      var k := |fs| - 1;
      FixtureHolds(split, fs[..k], n);
      OneFamilyHolds(split, fs[k], n);
      assert fs == fs[..k] + [fs[k]];
    }
  }

  // ----- names ---------------------------------------------------------------------

  lemma {:induction false} LeadingZeros(s: string)
    requires AllDigits(s)
    ensures AllDigits("0" + s) && DigitsValue("0" + s) == DigitsValue(s)
  {
    var t := "0" + s;
    if s == "" {
      assert t[..0] == "";
    } else {
      LeadingZeros(s[..|s| - 1]);
      assert t[..|t| - 1] == "0" + s[..|s| - 1];
    }
  }

  /** At least three digits that denote the number. */
  lemma Pad3Denotes(i: nat)
    ensures AllDigits(Pad3(i)) && |Pad3(i)| >= 3 && DigitsValue(Pad3(i)) == i
    ensures |Pad3(i)| > 3 ==> Pad3(i)[0] != '0'
  {
    DecimalDenotes(i);
    var s := Decimal(i);
    LeadingZeros(s);
    LeadingZeros("0" + s);
    assert "0" + ("0" + s) == "00" + s;
  }

  /** Two texts cut at their first c agree exactly when both parts agree. */
  lemma CutAt(a: string, b: string, c: char, r: string, s: string)
    requires c !in a && c !in b && a + [c] + r == b + [c] + s
    ensures a == b && r == s
  {
    var t, u := a + [c] + r, b + [c] + s;
    assert t[|a|] == c && u[|b|] == c;
    assert |a| == |b|;
    assert t[..|a|] == a && u[..|b|] == b && t[|a| + 1..] == r && u[|b| + 1..] == s;
  }

  function NumberPart(f: Family, i: nat): string {
    FamilyName(f) + "-" + Pad3(i)
  }

  lemma FamilyNamesPlain(f: Family)
    ensures '-' !in FamilyName(f) && ':' !in FamilyName(f)
  {
    match f
    case Stable => assert FamilyName(f) == "stable";
    case Correction => assert FamilyName(f) == "correction";
    case Past => assert FamilyName(f) == "past";
    case Conflict => assert FamilyName(f) == "conflict";
    case Removed => assert FamilyName(f) == "removed";
    case Revoked => assert FamilyName(f) == "revoked";
  }

  lemma FamilyNamesDiffer(f: Family, g: Family)
    ensures FamilyName(f) == FamilyName(g) <==> f == g
  {
    assert FamilyName(f)[2] == if f == Stable then 'a' else if f == Correction then 'r' else if f == Past then 's'
                               else if f == Conflict then 'n' else if f == Removed then 'm' else 'v';
    assert FamilyName(g)[2] == if g == Stable then 'a' else if g == Correction then 'r' else if g == Past then 's'
                               else if g == Conflict then 'n' else if g == Removed then 'm' else 'v';
  }

  lemma PlainNames(f: Family, g: Family, i: nat)
    ensures '-' !in FamilyName(f) && ':' !in FamilyName(f) && ':' !in NumberPart(f, i)
    ensures FamilyName(f) == FamilyName(g) <==> f == g
  {
    FamilyNamesPlain(f);
    FamilyNamesDiffer(f, g);
    Pad3Denotes(i);
    hide FamilyName, Pad3;
    forall k | 0 <= k < |Pad3(i)| ensures Pad3(i)[k] != ':' {
      assert IsDigit(Pad3(i)[k]);
    }
  }

  /** The name of a history determines its family and number. */
  lemma HistoryIdIsName(split: string, f: Family, i: nat, g: Family, j: nat)
    ensures HistoryId(split, f, i) == HistoryId(split, g, j) <==> f == g && i == j
  {
    if HistoryId(split, f, i) == HistoryId(split, g, j) {
      IdParts(split, f, i);
      IdParts(split, g, j);
      var pre := split + "-";
      assert (pre + NumberPart(f, i))[|pre|..] == NumberPart(f, i);
      assert (pre + NumberPart(g, j))[|pre|..] == NumberPart(g, j);
      SamePartsSameNumber(f, i, g, j);
    }
  }

  lemma IdParts(split: string, f: Family, i: nat)
    ensures HistoryId(split, f, i) == split + "-" + NumberPart(f, i)
  {
    Assoc(split + "-", FamilyName(f), "-");
    Assoc(split + "-", FamilyName(f) + "-", Pad3(i));
  }

  lemma SamePartsSameNumber(f: Family, i: nat, g: Family, j: nat)
    requires NumberPart(f, i) == NumberPart(g, j)
    ensures f == g && i == j
  {
    PlainNames(f, g, i);
    PlainNames(g, f, j);
    hide FamilyName, Pad3;
    CutAt(FamilyName(f), FamilyName(g), '-', Pad3(i), Pad3(j));
    Pad3Denotes(i);
    Pad3Denotes(j);
  }

  lemma ArmNamesDiffer(a: Arm, b: Arm)
    ensures ArmName(a) == ArmName(b) <==> a == b
  {
    assert ArmName(a)[0] == ArmName(b)[0] <==> a == b;
  }

  lemma CaseIdParts(split: string, f: Family, i: nat, a: Arm)
    ensures CaseOf(split, HistoryOf(split, f, i), a).id == split + "-" + (NumberPart(f, i) + [':'] + ArmName(a))
  {
    IdParts(split, f, i);
    hide AskedOf, NumberPart, ArmName, HistoryId;
    Assoc(split + "-", NumberPart(f, i), ":");
    Assoc(split + "-", NumberPart(f, i) + ":", ArmName(a));
  }

  /** The name of a case determines its history and its arm. */
  lemma CaseIdIsName(split: string, f: Family, i: nat, a: Arm, g: Family, j: nat, b: Arm)
    ensures CaseOf(split, HistoryOf(split, f, i), a).id == CaseOf(split, HistoryOf(split, g, j), b).id <==>
            f == g && i == j && a == b
  {
    CaseIdParts(split, f, i, a);
    CaseIdParts(split, g, j, b);
    hide CaseOf, HistoryOf, FamilyName, Pad3, NumberPart, ArmName, HistoryId;
    var s, t := NumberPart(f, i) + [':'] + ArmName(a), NumberPart(g, j) + [':'] + ArmName(b);
    var pre := split + "-";
    if pre + s == pre + t {
      assert (pre + s)[|pre|..] == s && (pre + t)[|pre|..] == t;
      PlainNames(f, g, i);
      PlainNames(g, f, j);
      CutAt(NumberPart(f, i), NumberPart(g, j), ':', ArmName(a), ArmName(b));
      SamePartsSameNumber(f, i, g, j);
      ArmNamesDiffer(a, b);
    }
  }

  // ----- the fixture repeats nothing ------------------------------------------------------

  predicate DistinctCases(cs: seq<Case>) {
    forall i, j | 0 <= i < j < |cs| :: cs[i].id != cs[j].id
  }

  predicate DistinctHistories(hs: seq<History>) {
    forall i, j | 0 <= i < j < |hs| :: hs[i].id != hs[j].id
  }

  lemma JoinDistinctCases(cs: seq<Case>, ds: seq<Case>)
    requires DistinctCases(cs) && DistinctCases(ds) && forall c, d | c in cs && d in ds :: c.id != d.id
    ensures DistinctCases(cs + ds)
  {
    var all := cs + ds;
    forall i, j | 0 <= i < j < |all| ensures all[i].id != all[j].id {
      if i < |cs| <= j { assert cs[i] in cs && ds[j - |cs|] in ds; }
    }
  }

  lemma JoinDistinctHistories(hs: seq<History>, ks: seq<History>)
    requires DistinctHistories(hs) && DistinctHistories(ks) && forall h, k | h in hs && k in ks :: h.id != k.id
    ensures DistinctHistories(hs + ks)
  {
    var all := hs + ks;
    forall i, j | 0 <= i < j < |all| ensures all[i].id != all[j].id {
      if i < |hs| <= j { assert hs[i] in hs && ks[j - |hs|] in ks; }
    }
  }

  lemma ArmsDistinct(split: string, f: Family, i: nat)
    ensures DistinctCases(CasesOf(split, HistoryOf(split, f, i), 5))
  {
    var cs := CasesOf(split, HistoryOf(split, f, i), 5);
    forall k, l | 0 <= k < l < |cs| ensures cs[k].id != cs[l].id {
      CaseIdIsName(split, f, i, ARMS[k], f, i, ARMS[l]);
    }
  }

  lemma {:induction false} OneFamilyDistinct(split: string, f: Family, n: nat)
    ensures DistinctHistories(OneFamily(split, f, n).0) && DistinctCases(OneFamily(split, f, n).1)
  {
    hide HistoryOf, CaseOf, CasesOf, DistinctCases, DistinctHistories, HistoryId;
    if n > 0 {
      OneFamilyDistinct(split, f, n - 1);
      OneFamilyHolds(split, f, n - 1);
      ArmsDistinct(split, f, n - 1);
      var before, h := OneFamily(split, f, n - 1), HistoryOf(split, f, n - 1);
      CasesAre(split, h);
      forall k | k in before.0 ensures k.id != h.id {
        var i: nat :| i < n - 1 && k == HistoryOf(split, f, i);
        HistoryNames(split, f, i, f, n - 1);
      }
      forall c, d | c in before.1 && d in CasesOf(split, h, 5) ensures c.id != d.id {
        var i: nat, a :| i < n - 1 && a in ARMS && c == CaseOf(split, HistoryOf(split, f, i), a);
        var b :| b in ARMS && d == CaseOf(split, h, b);
        CaseIdIsName(split, f, i, a, f, n - 1, b);
      }
      OneHistoryDistinct(h);
      JoinDistinctHistories(before.0, [h]);
      JoinDistinctCases(before.1, CasesOf(split, h, 5));
    } else {
      NothingDistinct();
    }
  }

  lemma OneHistoryDistinct(h: History)
    ensures DistinctHistories([h])
  {
  }

  lemma NothingDistinct()
    ensures DistinctHistories([]) && DistinctCases([])
  {
  }

  lemma HistoryNames(split: string, f: Family, i: nat, g: Family, j: nat)
    ensures HistoryOf(split, f, i).id == HistoryOf(split, g, j).id <==> f == g && i == j
  {
    HistoryIdIsName(split, f, i, g, j);
  }

  /** History ids and case ids of a fixture are distinct. */
  lemma {:induction false} FixtureDistinct(split: string, fs: seq<Family>, n: nat)
    requires forall i, j | 0 <= i < j < |fs| :: fs[i] != fs[j]
    ensures DistinctHistories(FixtureOf(split, fs, n).0) && DistinctCases(FixtureOf(split, fs, n).1)
  {
    hide HistoryOf, CaseOf, OneFamily, DistinctCases, DistinctHistories, HistoryId;
    if fs != [] {
      var k := |fs| - 1;
      FixtureDistinct(split, fs[..k], n);
      FixtureHolds(split, fs[..k], n);
      OneFamilyDistinct(split, fs[k], n);
      OneFamilyHolds(split, fs[k], n);
      var before, last := FixtureOf(split, fs[..k], n), OneFamily(split, fs[k], n);
      forall h, l | h in before.0 && l in last.0 ensures h.id != l.id {
        var f, i: nat :| f in fs[..k] && i < n && h == HistoryOf(split, f, i);
        var j: nat :| j < n && l == HistoryOf(split, fs[k], j);
        HistoryNames(split, f, i, fs[k], j);
      }
      forall c, d | c in before.1 && d in last.1 ensures c.id != d.id {
        var f, i: nat, a :| f in fs[..k] && i < n && a in ARMS && c == CaseOf(split, HistoryOf(split, f, i), a);
        var j: nat, b :| j < n && b in ARMS && d == CaseOf(split, HistoryOf(split, fs[k], j), b);
        CaseIdIsName(split, f, i, a, fs[k], j, b);
      }
      JoinDistinctHistories(before.0, last.0);
      JoinDistinctCases(before.1, last.1);
    } else {
      NothingDistinct();
    }
  }

  /** What is asked of a history of each family, in the words of its own events: their ids, their values, and
      for a contradiction that it be called one; where nothing holds, that the evidence be called insufficient. */
  lemma KeyAsks(split: string, f: Family, i: nat)
    ensures var hid := HistoryId(split, f, i); var asked := AskedOf(HistoryOf(split, f, i));
            var amber, violet := "amber-" + Pad3(i), "violet-" + Pad3(i);
            asked.citeAny.None? && asked.conflict.None? && asked.mustNotCite.Some? &&
            (f in {Stable, Past} ==>
              asked.citeAll == Some([hid + "/0"]) && asked.containsAll == Some([amber]) && !asked.insufficient) &&
            (f == Correction ==>
              asked.citeAll == Some([hid + "/1"]) && asked.containsAll == Some([violet]) && !asked.insufficient) &&
            (f == Conflict ==>
              asked.citeAll == Some([hid + "/0", hid + "/1"]) && asked.containsAll == Some([amber, violet, "conflict"]) &&
              !asked.insufficient) &&
            (f in {Removed, Revoked} ==> asked.citeAll.None? && asked.containsAll.None? && asked.insufficient)
  {
    var h := HistoryOf(split, f, i);
    var e, d := FirstEvent(h.id, i), SecondEvent(h.id, f, i);
    IdsAndValues(e, d);
    hide Pad3, HistoryId, Unexpected, Ids, Values;
    assert h.events == if f in {Stable, Revoked} then [e] else [e, d];
    assert [e.value] + [] == [e.value] && [d.value] + [] == [d.value];
    assert [e.value, d.value] + ["conflict"] == [e.value, d.value, "conflict"];
    if f == Correction { OneIdAndValue(d); }
  }

  lemma OneIdAndValue(d: Event)
    ensures Ids([d]) == [d.id] && Values([d]) == [d.value]
  {
  }

  lemma IdsAndValues(e: Event, d: Event)
    ensures Ids([e]) == [e.id] && Ids([e, d]) == [e.id, d.id]
    ensures Values([e]) == [e.value] && Values([e, d]) == [e.value, d.value]
  {
  }

  // ----- the arms ----------------------------------------------------------------

  /** What an arm selects from the hits of a permitted search; None when it cannot answer. */
  function Selected(arm: Arm, h: History, hits: seq<Event>, versions: map<string, seq<Event>>): Option<seq<Event>>
    requires arm != Munarium
  {
    match arm
    case NoMemory => Some([])
    case VersionedNotes => FromSnapshots(versions, h.asOf)
    case ConventionalRetrieval => Some(Resolve(Eligible(hits, h.asOf), h.asOf))
    case GovernanceAblation => Some(Standing(Eligible(hits, h.asOf), {}))
  }

  /** One arm's turn: an unauthorized search is refused and leaves nothing to select from. */
  function QueryArm(printed: Printer, contextChars: nat, h: History, arm: Arm, hits: seq<Event>): Result<Turn, ()>
    requires arm != Munarium
  {
    if !h.authorizedNow then Respond(printed, [], contextChars)
    else
      var selected := Selected(arm, h, hits, NoteVersions(h.events));
      if selected.None? then Err(()) else Respond(printed, selected.value, contextChars)
  }

  function TurnEvents(h: History, arm: Arm, hits: seq<Event>): Option<seq<Event>>
    requires arm != Munarium
  {
    if !h.authorizedNow then Some([]) else Selected(arm, h, hits, NoteVersions(h.events))
  }

  // ----- what each arm selects --------------------------------------------------------

  /** Does the arm select the first event of a history of this family? */
  predicate PicksFirst(arm: Arm, f: Family) {
    match arm
    case NoMemory => false
    case GovernanceAblation => f != Revoked
    case _ => f in {Stable, Past, Conflict}
  }

  predicate PicksSecond(arm: Arm, f: Family) {
    match arm
    case NoMemory => false
    case _ => f in {Correction, Conflict}
  }

  lemma {:induction false} EligibleTwice(events: seq<Event>, asOf: int)
    ensures Eligible(Eligible(events, asOf), asOf) == Eligible(events, asOf)
  {
    if events != [] {
      EligibleTwice(events[1..], asOf);
      var rest := Eligible(events[1..], asOf);
      assert ([events[0]] + rest)[1..] == rest && [] + rest == rest;
    }
  }

  /** The events of a history and what distinguishes them. */
  lemma EventsAre(split: string, f: Family, i: nat)
    ensures var h := HistoryOf(split, f, i); var e, d := FirstEvent(h.id, i), SecondEvent(h.id, f, i);
            (forall x :: x in h.events <==> x == e || (x == d && f !in {Stable, Revoked})) &&
            e.id != d.id && e.value != REMOVED && (d.value == REMOVED <==> f == Removed)
  {
    var h := HistoryOf(split, f, i);
    var e, d := FirstEvent(h.id, i), SecondEvent(h.id, f, i);
    assert e.id[|h.id| + 1] == '0' && d.id[|h.id| + 1] == '1';
    assert OldValue(i)[0] == 'a' && NewValue(i)[0] == 'v' && REMOVED[0] == '_';
  }

  lemma ResolutionPicks(split: string, f: Family, i: nat, events: seq<Event>)
    requires var h := HistoryOf(split, f, i); forall x :: x in events <==> x in h.events
    ensures var h := HistoryOf(split, f, i);
            forall x :: x in Resolve(events, h.asOf) <==>
              (x == FirstEvent(h.id, i) && (f in {Stable, Past, Conflict} || f == Revoked)) ||
              (x == SecondEvent(h.id, f, i) && f in {Correction, Conflict})
  {
    var h := HistoryOf(split, f, i);
    EventsAre(split, f, i);
    ResolvedAre(events, h.asOf);
    var e, d := FirstEvent(h.id, i), SecondEvent(h.id, f, i);
    assert f in {Correction, Removed} ==> d in events && d.at <= h.asOf && d.supersedes == Some(e.id);
    assert d.supersedes != Some(d.id);
  }

  /** An arm selects from a permitted search exactly the events its policy picks. */
  lemma ArmPicks(split: string, f: Family, i: nat, arm: Arm, hits: seq<Event>)
    requires arm != Munarium
    requires forall x :: x in hits <==> x in HistoryOf(split, f, i).events
    ensures var h := HistoryOf(split, f, i); var s := TurnEvents(h, arm, hits);
            s.Some? &&
            forall x :: x in s.value <==>
              (x == FirstEvent(h.id, i) && PicksFirst(arm, f)) || (x == SecondEvent(h.id, f, i) && PicksSecond(arm, f))
  {
    var h := HistoryOf(split, f, i);
    EventsAre(split, f, i);
    if h.authorizedNow && arm == VersionedNotes {
      SnapshotsRefineResolution(h.events, h.asOf);
      assert FirstEvent(h.id, i) in h.events && FirstEvent(h.id, i).at <= h.asOf;
      ResolutionPicks(split, f, i, h.events);
    } else if h.authorizedNow && arm == ConventionalRetrieval {
      EligibleTwice(hits, h.asOf);
      assert Resolve(Eligible(hits, h.asOf), h.asOf) == Resolve(hits, h.asOf);
      ResolutionPicks(split, f, i, hits);
    } else if h.authorizedNow && arm == GovernanceAblation {
      EligibleAre(hits, h.asOf);
      StandingAre(Eligible(hits, h.asOf), {});
    }
  }
}
