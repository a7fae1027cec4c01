/** Point-in-time notes: direct resolution, precomputed snapshots, and the shared responder. */
module Notes {
  import opened Canonical
  import opened CanonicalReading
  import opened Text
  import opened Wrappers

  datatype Event = Event(id: string, at: int, kind: string, value: string, supersedes: Option<string>)

  const REMOVED := "__removed__"

  // ----- resolution ------------------------------------------------------------

  function Eligible(events: seq<Event>, asOf: int): seq<Event> {
    if events == [] then []
    else (if events[0].at <= asOf then [events[0]] else []) + Eligible(events[1..], asOf)
  }

  function Superseded(events: seq<Event>): set<string> {
    set e | e in events && e.supersedes.Some? :: e.supersedes.value
  }

  predicate Stands(e: Event, superseded: set<string>) {
    e.id !in superseded && e.value != REMOVED
  }

  function Standing(events: seq<Event>, superseded: set<string>): seq<Event> {
    if events == [] then []
    else (if Stands(events[0], superseded) then [events[0]] else []) + Standing(events[1..], superseded)
  }

  /** What holds at a time: eligible events that no eligible event supersedes and that remove nothing. */
  function Resolve(events: seq<Event>, asOf: int): seq<Event> {
    var eligible := Eligible(events, asOf);
    Standing(eligible, Superseded(eligible))
  }

  lemma {:induction false} EligibleAre(events: seq<Event>, asOf: int)
    ensures forall e :: e in Eligible(events, asOf) <==> e in events && e.at <= asOf
  {
    if events != [] {
      EligibleAre(events[1..], asOf);
      assert events == [events[0]] + events[1..];
    }
  }

  lemma {:induction false} StandingAre(events: seq<Event>, superseded: set<string>)
    ensures forall e :: e in Standing(events, superseded) <==> e in events && Stands(e, superseded)
  {
    if events != [] {
      StandingAre(events[1..], superseded);
      assert events == [events[0]] + events[1..];
    }
  }

  /** Resolution, told by membership: what stands at a time. */
  lemma ResolvedAre(events: seq<Event>, asOf: int)
    ensures forall e :: e in Resolve(events, asOf) <==>
              e in events && e.at <= asOf && e.value != REMOVED &&
              !exists f :: f in events && f.at <= asOf && f.supersedes == Some(e.id)
  {
    var eligible := Eligible(events, asOf);
    EligibleAre(events, asOf);
    StandingAre(eligible, Superseded(eligible));
    forall e: Event ensures e.id in Superseded(eligible) <==>
                     exists f :: f in events && f.at <= asOf && f.supersedes == Some(e.id)
    {
      if e.id in Superseded(eligible) {
        var f :| f in eligible && f.supersedes.Some? && f.supersedes.value == e.id;
        assert f in events && f.at <= asOf && f.supersedes == Some(e.id);
      }
    }
  }

  lemma Regroup(a: seq<Event>, b: seq<Event>, c: seq<Event>)
    ensures a + (b + c) == a + b + c
    ensures [] + a == a && a + [] == a
  {
  }

  /** Eligibility keeps the order of the events: it works through a list piece by piece. */
  lemma {:induction false} EligibleInOrder(a: seq<Event>, b: seq<Event>, asOf: int)
    ensures Eligible(a + b, asOf) == Eligible(a, asOf) + Eligible(b, asOf)
  {
    if a == [] {
      Regroup(b, b, b);
      Regroup(Eligible(b, asOf), [], []);
    } else {
      var first := if a[0].at <= asOf then [a[0]] else [];
      var x, y := Eligible(a[1..], asOf), Eligible(b, asOf);
      assert (a + b)[0] == a[0] && (a + b)[1..] == a[1..] + b;
      EligibleInOrder(a[1..], b, asOf);
      assert Eligible(a + b, asOf) == first + (x + y) && Eligible(a, asOf) == first + x;
      Regroup(first, x, y);
    }
  }

  lemma OneEligible(e: Event, asOf: int)
    ensures Eligible([e], asOf) == if e.at <= asOf then [e] else []
  {
    assert [e][1..] == [] && [e] + [] == [e];
  }

  /** Standing keeps it too. */
  lemma {:induction false} StandingInOrder(a: seq<Event>, b: seq<Event>, superseded: set<string>)
    ensures Standing(a + b, superseded) == Standing(a, superseded) + Standing(b, superseded)
  {
    hide Stands;
    if a == [] {
      Regroup(b, b, b);
      Regroup(Standing(b, superseded), [], []);
    } else {
      var first := if Stands(a[0], superseded) then [a[0]] else [];
      var x, y := Standing(a[1..], superseded), Standing(b, superseded);
      assert (a + b)[0] == a[0] && (a + b)[1..] == a[1..] + b;
      StandingInOrder(a[1..], b, superseded);
      assert Standing(a + b, superseded) == first + (x + y) && Standing(a, superseded) == first + x;
      Regroup(first, x, y);
    }
  }

  /** A note is dropped when it is superseded or says it was removed. */
  lemma OneStanding(e: Event, superseded: set<string>)
    ensures Standing([e], superseded) == if e.id in superseded || e.value == "__removed__" then [] else [e]
  {
    assert [e][1..] == [] && [e] + [] == [e];
  }

  /** Events after a time do not matter at it. */
  lemma {:induction false} LaterEventsAreIneligible(events: seq<Event>, later: seq<Event>, asOf: int)
    requires forall e | e in later :: e.at > asOf
    ensures Eligible(events + later, asOf) == Eligible(events, asOf)
  {
    if events == [] {
      assert events + later == later;
      if later != [] {
        assert later[0] in later;
        LaterEventsAreIneligible([], later[1..], asOf);
        assert [] + later[1..] == later[1..];
      }
    } else {
      assert (events + later)[1..] == events[1..] + later;
      LaterEventsAreIneligible(events[1..], later, asOf);
    }
  }

  /** Appending later-dated events never changes the answer at a pinned time. */
  lemma PinnedAnswerIsStable(events: seq<Event>, later: seq<Event>, asOf: int)
    requires forall e | e in later :: e.at > asOf
    ensures Resolve(events + later, asOf) == Resolve(events, asOf)
  {
    LaterEventsAreIneligible(events, later, asOf);
  }

  // ----- snapshots ----------------------------------------------------------------

  /** Resolutions of all events at the times of the first few, keyed by the decimal time. */
  function Snapshots(events: seq<Event>, all: seq<Event>): map<string, seq<Event>> {
    if events == [] then map[]
    else map[Text.Str(events[0].at) := Resolve(all, events[0].at)] + Snapshots(events[1..], all)
  }

  function NoteVersions(events: seq<Event>): map<string, seq<Event>> {
    Snapshots(events, events)
  }

  /** int(text) */
  function IntOf(s: string): int {
    var r := ReadInt(s);
    if r.Read? then r.value else 0
  }

  lemma IntOfStr(n: int)
    ensures IntOf(Text.Str(n)) == n
  {
    IntReadsBack(n, "");
    assert Text.Str(n) + "" == Text.Str(n);
  }

  lemma {:induction false} SnapshotsAre(events: seq<Event>, all: seq<Event>)
    ensures forall k :: k in Snapshots(events, all) <==> exists e :: e in events && Text.Str(e.at) == k
    ensures forall k | k in Snapshots(events, all) :: Snapshots(events, all)[k] == Resolve(all, IntOf(k))
  {
    if events != [] {
      SnapshotsAre(events[1..], all);
      IntOfStr(events[0].at);
      assert events == [events[0]] + events[1..];
    }
  }

  /** The snapshot times not after a time. */
  function Pins(versions: map<string, seq<Event>>, asOf: int): set<int> {
    set k | k in versions && IntOf(k) <= asOf :: IntOf(k)
  }

  lemma EmptyOrNot(s: set<int>)
    ensures s == {} || exists x :: x in s
  {
    if forall x :: x !in s { assert s == {}; }
  }

  lemma {:induction false} MaximumExists(s: set<int>) returns (m: int)
    requires s != {}
    ensures m in s && forall x | x in s :: x <= m
  {
    EmptyOrNot(s);
    var x :| x in s;
    if s == {x} {
      m := x;
    } else {
      m := MaximumExists(s - {x});
      if m < x { m := x; }
      assert s == s - {x} + {x};
    }
  }

  function Maximum(s: set<int>): (m: int)
    requires s != {}
    ensures m in s && forall x | x in s :: x <= m
  {
    assert exists m :: m in s && forall x | x in s :: x <= m by { var m := MaximumExists(s); }
    var m :| m in s && forall x | x in s :: x <= m;
    m
  }

  /** The answer from snapshots: the one at the latest snapshot time not after asOf, which must exist. */
  function FromSnapshots(versions: map<string, seq<Event>>, asOf: int): Option<seq<Event>> {
    var pins := Pins(versions, asOf);
    if pins == {} then None
    else
      var key := Text.Str(Maximum(pins));
      if key in versions then Some(versions[key]) else None
  }

  lemma {:induction false} SameEligible(events: seq<Event>, s: int, t: int)
    requires forall e | e in events :: e.at <= s <==> e.at <= t
    ensures Eligible(events, s) == Eligible(events, t)
  {
    if events != [] {
      assert events[0] in events;
      SameEligible(events[1..], s, t);
    }
  }

  /** The snapshot index refines direct resolution: it answers exactly from the first event on, and then
      the snapshot at the latest event time gives what resolving at the asked time gives. */
  lemma SnapshotsRefineResolution(events: seq<Event>, asOf: int)
    ensures FromSnapshots(NoteVersions(events), asOf) ==
            if exists e :: e in events && e.at <= asOf then Some(Resolve(events, asOf)) else None
  {
    var versions := NoteVersions(events);
    SnapshotsAre(events, events);
    var pins := Pins(versions, asOf);
    forall e | e in events ensures Text.Str(e.at) in versions && IntOf(Text.Str(e.at)) == e.at {
      IntOfStr(e.at);
    }
    forall n | n in pins ensures exists e :: e in events && e.at == n && n <= asOf {
      var k :| k in versions && IntOf(k) <= asOf && IntOf(k) == n;
      var e :| e in events && Text.Str(e.at) == k;
      IntOfStr(e.at);
    }
    if e :| e in events && e.at <= asOf {
      assert e.at in pins by {
        assert IntOf(Text.Str(e.at)) == e.at;
      }
      var pin := Maximum(pins);
      var f :| f in events && f.at == pin;
      IntOfStr(pin);
      forall g | g in events ensures g.at <= pin <==> g.at <= asOf {
        if g.at <= asOf {
          assert IntOf(Text.Str(g.at)) == g.at && g.at in pins;
        }
      }
      SameEligible(events, pin, asOf);
    }
  }
}
