/** Canonical bytes are identity: two documents print alike exactly when they are the same JSON value. */
module CanonicalIdentity {
  import opened Canonical
  import opened CanonicalReading
  import opened Text
  import opened Utf16
  import opened Wrappers

  // ----- same value, same text -------------------------------------------------

  lemma HeadsAgree(v: Value, ms: seq<Member>, w: Value, ns: seq<Member>)
    requires v.Dict? && Printable(v) && StrictlySorted(ms) && ms != [] && forall m | m in ms :: m in v.members
    requires w.Dict? && Printable(w) && StrictlySorted(ns) && ns != [] && forall n | n in ns :: n in w.members
    requires MembersMeaning(v, ms) == MembersMeaning(w, ns)
    ensures ms[0].key == ns[0].key && ms[0].key.Name?
    ensures Printable(ms[0].value) && Printable(ns[0].value)
    ensures Meaning(ms[0].value) == Meaning(ns[0].value)
    ensures MembersMeaning(v, ms[1..]) == MembersMeaning(w, ns[1..])
  {
    SortedIsDistinct(ms);
    SortedIsDistinct(ns);
    assert ms[0] in v.members && ns[0] in w.members;
    LookupFinds(ms, ms[0]);
    LookupFinds(ns, ns[0]);
    var k, l := ms[0].key.text, ns[0].key.text;
    MeaningLooksUp(v, ms, k);
    MeaningLooksUp(w, ns, k);
    MeaningLooksUp(v, ms, l);
    MeaningLooksUp(w, ns, l);
    assert k in MembersMeaning(v, ms) && l in MembersMeaning(w, ns);
    assert Member(Name(k), Lookup(ns, Name(k))) in ns && Member(Name(l), Lookup(ms, Name(l))) in ms;
    KeyOrderIsTotal(k, l);
    assert k == l;
    TailMeaning(v, ms);
    TailMeaning(w, ns);
  }

  lemma SortedIsDistinct(ms: seq<Member>)
    requires StrictlySorted(ms)
    ensures DistinctKeys(ms)
  {
    forall i, j | 0 <= i < j < |ms| ensures ms[i].key != ms[j].key {
      assert Before(ms[i], ms[j]);
      KeyOrderIsTotal(ms[i].key.text, ms[j].key.text);
    }
  }

  lemma TailMeaning(v: Value, ms: seq<Member>)
    requires v.Dict? && Printable(v) && DistinctKeys(ms) && ms != [] && forall m | m in ms :: m in v.members
    ensures ms[0].key.Name?
    ensures MembersMeaning(v, ms[1..]) == MembersMeaning(v, ms) - {ms[0].key.text}
  {
    assert ms[0] in v.members;
    MeaningLooksUp(v, ms[1..], ms[0].key.text);
    HeadKeyIsNew(ms);
    assert MembersMeaning(v, ms[1..]) == MembersMeaning(v, ms) - {ms[0].key.text};
  }

  /** The text depends on the JSON value alone. */
  lemma {:induction false} MeaningDeterminesText(v: Value, p: string, w: Value, q: string)
    requires Printable(v) && WellFormed(v) && Printable(w) && WellFormed(w)
    requires Meaning(v) == Meaning(w)
    ensures Serialize(v, p).Ok? && Serialize(v, p) == Serialize(w, q)
    decreases v, 1, 0
  {
    SerializeAcceptsPrintable(v, p);
    SerializeAcceptsPrintable(w, q);
    match v
    case List(items) => ItemsMeaningDetermines(v, 0, p, w, q);
    case Dict(ms) =>
      SameMembers(SortMembers(ms), ms);
      SameMembers(SortMembers(w.members), w.members);
      SortedByCodeUnits(ms);
      SortedByCodeUnits(w.members);
      SortingKeepsMeaning(v);
      SortingKeepsMeaning(w);
      MembersMeaningDetermines(v, SortMembers(ms), p, w, SortMembers(w.members), q);
    case _ =>
  }

  lemma {:induction false} ItemsMeaningDetermines(v: Value, i: nat, p: string, w: Value, q: string)
    requires v.List? && Printable(v) && WellFormed(v) && i <= |v.items|
    requires w.List? && Printable(w) && WellFormed(w) && i <= |w.items|
    requires ItemsMeaning(v, i) == ItemsMeaning(w, i)
    ensures SerializeItems(v, i, p).Ok? && SerializeItems(v, i, p) == SerializeItems(w, i, q)
    decreases v, 0, |v.items| - i
  {
    if i < |v.items| {
      assert ItemsMeaning(v, i)[0] == ItemsMeaning(w, i)[0];
      assert ItemsMeaning(v, i)[1..] == ItemsMeaning(v, i + 1) && ItemsMeaning(w, i)[1..] == ItemsMeaning(w, i + 1);
      MeaningDeterminesText(v.items[i], p + "[" + Text.Str(i) + "]", w.items[i], q + "[" + Text.Str(i) + "]");
      ItemsMeaningDetermines(v, i + 1, p, w, q);
    }
  }

  lemma NoMembersNoMeaning(w: Value, ns: seq<Member>)
    requires w.Dict? && Printable(w) && forall n | n in ns :: n in w.members
    ensures MembersMeaning(w, ns) == map[] <==> ns == []
  {
    if ns != [] {
      assert ns[0] in w.members;
      assert ns[0].key.text in MembersMeaning(w, ns);
    }
  }

  lemma {:induction false} MembersMeaningDetermines(v: Value, ms: seq<Member>, p: string,
                                                    w: Value, ns: seq<Member>, q: string)
    requires v.Dict? && Printable(v) && WellFormed(v) && StrictlySorted(ms) && forall m | m in ms :: m in v.members
    requires w.Dict? && Printable(w) && WellFormed(w) && StrictlySorted(ns) && forall n | n in ns :: n in w.members
    requires MembersMeaning(v, ms) == MembersMeaning(w, ns)
    ensures NamedKeys(ms) && NamedKeys(ns)
    ensures SerializeMembers(v, ms, p).Ok? && SerializeMembers(v, ms, p) == SerializeMembers(w, ns, q)
    decreases v, 0, |ms|
  {
    if ms == [] {
      NoMembersNoMeaning(w, ns);
    } else {
      assert ms[0].key.text in MembersMeaning(v, ms);
      HeadsAgree(v, ms, w, ns);
      assert ms[0] in v.members && ns[0] in w.members;
      var name := ms[0].key.text;
      var first, others := MembersUnfold(v, ms, p);
      var first', others' := MembersUnfold(w, ns, q);
      MeaningDeterminesText(ms[0].value, p + "." + name, ns[0].value, q + "." + name);
      MembersMeaningDetermines(v, ms[1..], p, w, ns[1..], q);
    }
  }

  // ----- the same document up to member order -------------------------------------

  /** Equal scalars, arrays position by position, objects name by name, at every depth. */
  predicate SameDocument(v: Value, w: Value)
    decreases v
  {
    match v
    case List(items) =>
      w.List? && |items| == |w.items| && forall i | 0 <= i < |items| :: SameDocument(items[i], w.items[i])
    case Dict(ms) =>
      w.Dict? && KeySet(ms) == KeySet(w.members) &&
      forall k | k in KeySet(ms) :: SameDocument(Lookup(ms, k), Lookup(w.members, k))
    case _ => v == w
  }

  lemma {:induction false} ItemsMeaningAt(v: Value, i: nat)
    requires v.List? && Printable(v) && i <= |v.items|
    ensures |ItemsMeaning(v, i)| == |v.items| - i
    ensures forall k | i <= k < |v.items| :: ItemsMeaning(v, i)[k - i] == Meaning(v.items[k])
    decreases |v.items| - i
  {
    if i < |v.items| {
      ItemsMeaningAt(v, i + 1);
      forall k | i <= k < |v.items| ensures ItemsMeaning(v, i)[k - i] == Meaning(v.items[k]) {
        if k > i { assert ItemsMeaning(v, i)[k - i] == ItemsMeaning(v, i + 1)[k - (i + 1)]; }
      }
    }
  }

  lemma {:induction false} SameDocumentIsSameMeaning(v: Value, w: Value)
    requires Printable(v) && WellFormed(v) && Printable(w) && WellFormed(w)
    ensures SameDocument(v, w) <==> Meaning(v) == Meaning(w)
    decreases v, 2
  {
    if v.List? && w.List? {
      SameItemsSameMeaning(v, w);
    } else if v.Dict? && w.Dict? {
      SameMembersSameMeaning(v, w);
    }
  }

  lemma {:induction false} SameItemsSameMeaning(v: Value, w: Value)
    requires v.List? && Printable(v) && WellFormed(v) && w.List? && Printable(w) && WellFormed(w)
    ensures SameDocument(v, w) <==> ItemsMeaning(v, 0) == ItemsMeaning(w, 0)
    decreases v, 1
  {
    ItemsMeaningAt(v, 0);
    ItemsMeaningAt(w, 0);
    if |v.items| == |w.items| {
      forall i | 0 <= i < |v.items|
        ensures SameDocument(v.items[i], w.items[i]) <==> ItemsMeaning(v, 0)[i] == ItemsMeaning(w, 0)[i]
      {
        SameDocumentIsSameMeaning(v.items[i], w.items[i]);
      }
    }
  }

  /** Under one name, two dictionaries store the same document exactly when their meanings agree there. */
  lemma {:induction false} SameUnderName(v: Value, w: Value, k: string)
    requires v.Dict? && Printable(v) && WellFormed(v) && w.Dict? && Printable(w) && WellFormed(w)
    ensures var a, b := MembersMeaning(v, v.members), MembersMeaning(w, w.members);
            (k in a <==> Name(k) in KeySet(v.members)) && (k in b <==> Name(k) in KeySet(w.members)) &&
            (k in a && k in b ==>
              (a[k] == b[k] <==> SameDocument(Lookup(v.members, Name(k)), Lookup(w.members, Name(k)))))
    decreases v, 0
  {
    MeaningLooksUp(v, v.members, k);
    MeaningLooksUp(w, w.members, k);
    if Name(k) in KeySet(v.members) && Name(k) in KeySet(w.members) {
      assert Member(Name(k), Lookup(v.members, Name(k))) in v.members;
      assert Member(Name(k), Lookup(w.members, Name(k))) in w.members;
      SameDocumentIsSameMeaning(Lookup(v.members, Name(k)), Lookup(w.members, Name(k)));
    }
  }

  lemma {:induction false} SameMembersSameMeaning(v: Value, w: Value)
    requires v.Dict? && Printable(v) && WellFormed(v) && w.Dict? && Printable(w) && WellFormed(w)
    ensures SameDocument(v, w) <==> MembersMeaning(v, v.members) == MembersMeaning(w, w.members)
    decreases v, 1
  {
    var ms, ns := v.members, w.members;
    var a, b := MembersMeaning(v, ms), MembersMeaning(w, ns);
    if a == b {
      forall k ensures k in KeySet(ms) <==> k in KeySet(ns) {
        if k.Name? { SameUnderName(v, w, k.text); }
      }
      forall k | k in KeySet(ms) ensures SameDocument(Lookup(ms, k), Lookup(ns, k)) {
        SameUnderName(v, w, k.text);
      }
    }
    if SameDocument(v, w) {
      forall k ensures (k in a <==> k in b) && (k in a ==> a[k] == b[k]) {
        SameUnderName(v, w, k);
        assert Name(k) in KeySet(ms) ==> SameDocument(Lookup(ms, Name(k)), Lookup(ns, Name(k)));
      }
      assert a == b;
    }
  }

  // ----- the theorems -----------------------------------------------------------------

  /** A reader recovers every printable document from its canonical text, with nothing left over. */
  lemma CanonicalTextReads(v: Value)
    requires Printable(v) && WellFormed(v)
    ensures ReadValue(CanonicalText(v)) == Read(Meaning(v), "")
  {
    ValueReadsBack(v, "$", "");
    assert CanonicalText(v) + "" == CanonicalText(v);
  }

  /** Canonical text is identity: equal text, equal document, in both directions. */
  lemma CanonicalTextIsIdentity(v: Value, w: Value)
    requires Printable(v) && WellFormed(v) && Printable(w) && WellFormed(w)
    ensures CanonicalText(v) == CanonicalText(w) <==> SameDocument(v, w)
  {
    CanonicalTextReads(v);
    CanonicalTextReads(w);
    SameDocumentIsSameMeaning(v, w);
    if Meaning(v) == Meaning(w) {
      MeaningDeterminesText(v, "$", w, "$");
    }
  }

  /** The error path never reaches the text. */
  lemma PathIsNotContent(v: Value, p: string, q: string)
    requires Printable(v) && WellFormed(v)
    ensures Serialize(v, p).Ok? && Serialize(v, p) == Serialize(v, q)
  {
    MeaningDeterminesText(v, p, v, q);
  }

  /** Reordering the members of an object leaves the text alone; deeper down the same follows from
      CanonicalTextIsIdentity, since SameDocument compares members by name at every depth. */
  lemma MemberOrderIsNotContent(ms: seq<Member>, ns: seq<Member>)
    requires multiset(ms) == multiset(ns)
    requires Printable(Dict(ms)) && WellFormed(Dict(ms)) && Printable(Dict(ns)) && WellFormed(Dict(ns))
    ensures CanonicalText(Dict(ms)) == CanonicalText(Dict(ns))
  {
    SameMembers(ms, ns);
    forall k ensures k in KeySet(ms) <==> k in KeySet(ns) {
      SameMembersSameLookup(ms, ns, k);
    }
    forall k | k in KeySet(ms) ensures SameDocument(Lookup(ms, k), Lookup(ns, k)) {
      assert Member(k, Lookup(ms, k)) in ms;
      SameMembersSameLookup(ms, ns, k);
      SameDocumentIsSameMeaning(Lookup(ms, k), Lookup(ms, k));
    }
    CanonicalTextIsIdentity(Dict(ms), Dict(ns));
  }
}
