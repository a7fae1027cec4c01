/** The shared deterministic responder: what it answers depends on the set of values it is given. */
module Responder {
  import opened Notes
  import opened Text
  import opened Utf16
  import opened Wrappers

  // ----- sorted(set(values)) ---------------------------------------------------

  predicate Ascending(vs: seq<string>) {
    forall i, j | 0 <= i < j < |vs| :: CodePointLess(vs[i], vs[j])
  }

  function InsertValue(v: string, vs: seq<string>): seq<string> {
    if vs == [] || CodePointLess(v, vs[0]) then [v] + vs
    else if v == vs[0] then vs
    else [vs[0]] + InsertValue(v, vs[1..])
  }

  function SortedValues(events: seq<Event>): seq<string> {
    if events == [] then [] else InsertValue(events[0].value, SortedValues(events[1..]))
  }

  lemma CodePointTrichotomy(s: string, t: string)
    ensures !(CodePointLess(s, t) && CodePointLess(t, s))
    ensures s == t ==> !CodePointLess(s, t)
    ensures s != t ==> CodePointLess(s, t) || CodePointLess(t, s)
  {
    LexTrichotomy(CodePoints(s), CodePoints(t));
    if CodePoints(s) == CodePoints(t) { CodePointsInjective(s, t); }
  }

  lemma {:induction false} InsertValueAscends(v: string, vs: seq<string>)
    requires Ascending(vs)
    ensures Ascending(InsertValue(v, vs))
    ensures forall w :: w in InsertValue(v, vs) <==> w == v || w in vs
  {
    if vs != [] {
      CodePointTrichotomy(v, vs[0]);
      assert vs == [vs[0]] + vs[1..];
      if CodePointLess(v, vs[0]) {
        forall i | 1 <= i < |vs| ensures CodePointLess(v, vs[i]) {
          LexTransitive(CodePoints(v), CodePoints(vs[0]), CodePoints(vs[i]));
        }
      } else if v != vs[0] {
        InsertValueAscends(v, vs[1..]);
        var rest := InsertValue(v, vs[1..]);
        forall i | 0 <= i < |rest| ensures CodePointLess(vs[0], rest[i]) {
          assert rest[i] in rest;
        }
      }
    }
  }

  lemma {:induction false} SortedValuesAscend(events: seq<Event>)
    ensures Ascending(SortedValues(events))
    ensures forall v :: v in SortedValues(events) <==> exists e | e in events :: e.value == v
  {
    if events != [] {
      SortedValuesAscend(events[1..]);
      InsertValueAscends(events[0].value, SortedValues(events[1..]));
      assert events == [events[0]] + events[1..];
    }
  }

  lemma AscendingTail(vs: seq<string>)
    requires Ascending(vs) && vs != []
    ensures Ascending(vs[1..]) && forall v :: v in vs[1..] <==> v in vs && v != vs[0]
  {
    assert vs == [vs[0]] + vs[1..];
    forall v | v in vs[1..] ensures v != vs[0] {
      var i :| 0 <= i < |vs[1..]| && vs[1..][i] == v;
      assert CodePointLess(vs[0], vs[i + 1]);
      CodePointTrichotomy(vs[0], v);
    }
  }

  lemma SomeMember(ws: seq<string>)
    ensures ws != [] ==> exists w :: w in ws
  {
    if ws != [] { assert ws[0] in ws; }
  }

  /** An ascending list is determined by its elements. */
  lemma {:induction false} AscendingIsUnique(vs: seq<string>, ws: seq<string>)
    requires Ascending(vs) && Ascending(ws) && forall v :: v in vs <==> v in ws
    ensures vs == ws
  {
    if vs == [] {
      SomeMember(ws);
    } else {
      assert vs[0] in vs && vs[0] in ws && ws[0] in vs;
      CodePointTrichotomy(vs[0], ws[0]);
      assert vs[0] == ws[0];
      assert vs == [vs[0]] + vs[1..] && ws == [ws[0]] + ws[1..];
      AscendingTail(vs);
      AscendingTail(ws);
      AscendingIsUnique(vs[1..], ws[1..]);
    }
  }

  // ----- the answer --------------------------------------------------------------

  /** The length of an event printed as JSON. */
  type Printer = Event -> nat

  function TotalLength(printed: Printer, events: seq<Event>): nat {
    if events == [] then 0 else printed(events[0]) + TotalLength(printed, events[1..])
  }

  /** len(json.dumps(events)): brackets, and a comma and a space between events */
  function ContextChars(printed: Printer, events: seq<Event>): nat {
    2 + TotalLength(printed, events) + if events == [] then 0 else 2 * (|events| - 1)
  }

  function AnswerText(events: seq<Event>): string {
    var values := SortedValues(events);
    if values == [] then "insufficient evidence"
    else (if |values| > 1 then "conflict: " else "") + Join(" | ", values)
  }

  /** What a responder or a live turn returns: the cited paths in order, and the completion. */
  datatype Completion = Absent | MalformedCompletion | Completed(text: string)

  datatype Turn = Turn(hits: Option<seq<string>>, completion: Completion)

  function Paths(events: seq<Event>): seq<string> {
    seq(|events|, i requires 0 <= i < |events| => events[i].id)
  }

  /** Err when the selected evidence does not fit the context. */
  function Respond(printed: Printer, events: seq<Event>, contextChars: nat): Result<Turn, ()> {
    if ContextChars(printed, events) > contextChars then Err(())
    else Ok(Turn(Some(Paths(events)), Completed(AnswerText(events))))
  }

  lemma {:induction false} JoinedLength(texts: seq<string>, printed: Printer, events: seq<Event>)
    requires |texts| == |events| && forall i | 0 <= i < |texts| :: |texts[i]| == printed(events[i])
    ensures |Join(", ", texts)| == TotalLength(printed, events) + if events == [] then 0 else 2 * (|events| - 1)
  {
    if |texts| > 1 {
      forall i | 0 <= i < |texts| - 1 ensures |texts[1..][i]| == printed(events[1..][i]) {
        assert texts[1..][i] == texts[i + 1] && events[1..][i] == events[i + 1];
      }
      JoinedLength(texts[1..], printed, events[1..]);
    } else if |texts| == 1 {
      assert events[1..] == [];
    }
  }

  /** The budget is compared with the length of the printed list: brackets around the printed events, with a
      comma and a space between. */
  lemma ContextIsPrinted(texts: seq<string>, printed: Printer, events: seq<Event>)
    requires |texts| == |events| && forall i | 0 <= i < |texts| :: |texts[i]| == printed(events[i])
    ensures ContextChars(printed, events) == |"[" + Join(", ", texts) + "]"|
  {
    JoinedLength(texts, printed, events);
  }

  /** How an answer reads: nothing known, one value as it is, or two values called a conflict. */
  lemma AnswersRead(events: seq<Event>, a: string, b: string)
    ensures SortedValues(events) == [] ==> AnswerText(events) == "insufficient evidence"
    ensures SortedValues(events) == [a] ==> AnswerText(events) == a
    ensures SortedValues(events) == [a, b] ==> AnswerText(events) == "conflict: " + (a + " | " + b)
  {
    if SortedValues(events) == [a] {
      assert "" + a == a;
    }
    if SortedValues(events) == [a, b] {
      assert [a, b][1..] == [b];
      assert Join(" | ", [b]) == b;
      assert Join(" | ", [a, b]) == a + " | " + b;
    }
  }

  // ----- the order of the evidence does not matter ------------------------------------

  lemma {:induction false} LengthOfMiddle(printed: Printer, a: seq<Event>, e: Event, b: seq<Event>)
    ensures TotalLength(printed, a + [e] + b) == printed(e) + TotalLength(printed, a + b)
  {
    if a == [] {
      assert a + [e] + b == [e] + b && a + b == b;
    } else {
      assert (a + [e] + b)[1..] == a[1..] + [e] + b && (a + b)[1..] == a[1..] + b;
      LengthOfMiddle(printed, a[1..], e, b);
    }
  }

  lemma RemoveOne(printed: Printer, fs: seq<Event>, e: Event) returns (rest: seq<Event>)
    requires e in fs
    ensures multiset(fs) == multiset(rest) + multiset{e}
    ensures TotalLength(printed, fs) == printed(e) + TotalLength(printed, rest)
  {
    var i :| 0 <= i < |fs| && fs[i] == e;
    rest := fs[..i] + fs[i + 1..];
    assert fs == fs[..i] + [e] + fs[i + 1..];
    LengthOfMiddle(printed, fs[..i], e, fs[i + 1..]);
  }

  lemma {:induction false} LengthPermutes(printed: Printer, es: seq<Event>, fs: seq<Event>)
    requires multiset(es) == multiset(fs)
    ensures TotalLength(printed, es) == TotalLength(printed, fs)
    decreases |es|
  {
    if es == [] {
      assert |multiset(fs)| == 0;
    } else {
      assert es[0] in multiset(fs);
      var rest := RemoveOne(printed, fs, es[0]);
      assert es == [es[0]] + es[1..];
      assert multiset(es[1..]) == multiset(es) - multiset{es[0]};
      assert multiset(rest) == multiset(fs) - multiset{es[0]};
      LengthPermutes(printed, es[1..], rest);
    }
  }

  lemma {:induction false} EligibleCounts(events: seq<Event>, asOf: int, e: Event)
    ensures multiset(Eligible(events, asOf))[e] == if e.at <= asOf then multiset(events)[e] else 0
  {
    if events != [] {
      EligibleCounts(events[1..], asOf, e);
      assert events == [events[0]] + events[1..];
    }
  }

  lemma {:induction false} StandingCounts(events: seq<Event>, superseded: set<string>, e: Event)
    ensures multiset(Standing(events, superseded))[e] == if Stands(e, superseded) then multiset(events)[e] else 0
  {
    if events != [] {
      StandingCounts(events[1..], superseded, e);
      assert events == [events[0]] + events[1..];
    }
  }

  lemma SameEvents(es: seq<Event>, fs: seq<Event>)
    requires multiset(es) == multiset(fs)
    ensures forall e :: e in es <==> e in fs
  {
    forall e ensures e in es <==> e in fs {
      assert e in es <==> e in multiset(es);
    }
  }

  lemma EligiblePermutes(es: seq<Event>, fs: seq<Event>, asOf: int)
    requires multiset(es) == multiset(fs)
    ensures multiset(Eligible(es, asOf)) == multiset(Eligible(fs, asOf))
  {
    forall e ensures multiset(Eligible(es, asOf))[e] == multiset(Eligible(fs, asOf))[e] {
      EligibleCounts(es, asOf, e);
      EligibleCounts(fs, asOf, e);
    }
  }

  lemma StandingPermutes(es: seq<Event>, fs: seq<Event>, superseded: set<string>)
    requires multiset(es) == multiset(fs)
    ensures multiset(Standing(es, superseded)) == multiset(Standing(fs, superseded))
  {
    forall e ensures multiset(Standing(es, superseded))[e] == multiset(Standing(fs, superseded))[e] {
      StandingCounts(es, superseded, e);
      StandingCounts(fs, superseded, e);
    }
  }

  /** Resolving permuted evidence gives a permutation of the same events. */
  lemma ResolvePermutes(es: seq<Event>, fs: seq<Event>, asOf: int)
    requires multiset(es) == multiset(fs)
    ensures multiset(Resolve(es, asOf)) == multiset(Resolve(fs, asOf))
  {
    var a, b := Eligible(es, asOf), Eligible(fs, asOf);
    EligiblePermutes(es, fs, asOf);
    SameEvents(a, b);
    assert Superseded(a) == Superseded(b);
    StandingPermutes(a, b, Superseded(a));
  }

  /** The responder answers permuted evidence alike: same fit, same text, same set of paths. */
  lemma RespondIgnoresOrder(printed: Printer, es: seq<Event>, fs: seq<Event>, contextChars: nat)
    requires multiset(es) == multiset(fs)
    ensures AnswerText(es) == AnswerText(fs)
    ensures Respond(printed, es, contextChars).Ok? <==> Respond(printed, fs, contextChars).Ok?
    ensures forall p :: p in Paths(es) <==> p in Paths(fs)
  {
    SameEvents(es, fs);
    SortedValuesAscend(es);
    SortedValuesAscend(fs);
    AscendingIsUnique(SortedValues(es), SortedValues(fs));
    LengthPermutes(printed, es, fs);
    assert |es| == |multiset(es)| == |multiset(fs)| == |fs|;
    PathsAre(es);
    PathsAre(fs);
  }

  lemma PathsAre(events: seq<Event>)
    ensures forall p :: p in Paths(events) <==> exists e | e in events :: e.id == p
  {
    forall e | e in events ensures e.id in Paths(events) {
      var i :| 0 <= i < |events| && events[i] == e;
      assert Paths(events)[i] == e.id;
    }
    forall p | p in Paths(events) ensures exists e | e in events :: e.id == p {
      var i :| 0 <= i < |Paths(events)| && Paths(events)[i] == p;
      assert events[i] in events && events[i].id == p;
    }
  }
}
