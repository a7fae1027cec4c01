/** Which identifier moves when a build spec, an artifact plan or a manifest is edited. */
module Identifiers {
  import opened Canonical
  import opened CanonicalReading
  import opened CanonicalIdentity
  import opened Wrappers

  /** A digest of a canonical text: its UTF-8 bytes, hashed, in hexadecimal. */
  type Digest = string -> string

  /** The digest does not collide on these two texts. */
  predicate NoCollision(sha: Digest, a: string, b: string) {
    sha(a) == sha(b) ==> a == b
  }

  const SPEC_FIELD := Name("build_spec_sha256")
  const PLAN_FIELD := Name("artifact_plan_sha256")

  /** Dictionary assignment: in place when the key is present, at the end otherwise. */
  function Assign(ms: seq<Member>, k: Key, v: Value): (r: seq<Member>) {
    if ms == [] then [Member(k, v)]
    else if ms[0].key == k then [Member(k, v)] + ms[1..]
    else [ms[0]] + Assign(ms[1..], k, v)
  }

  datatype Ids = Ids(indexVersionId: string, artifactPlanSha256: string, artifactId: string)

  function Sha256Hex(sha: Digest, v: Value): Result<string, Failure> {
    var text :- Serialize(v, "$");
    Ok(sha(text))
  }

  /** The manifest with the two hash fields recomputed. */
  function Embed(manifest: seq<Member>, specHash: string, planHash: string): seq<Member> {
    Assign(Assign(manifest, SPEC_FIELD, Value.Str(specHash)), PLAN_FIELD, Value.Str(planHash))
  }

  function ComputeIds(sha: Digest, spec: Value, plan: Value, manifest: seq<Member>): Result<Ids, Failure> {
    var specHash :- Sha256Hex(sha, spec);
    var planHash :- Sha256Hex(sha, plan);
    var artifact :- Sha256Hex(sha, Dict(Embed(manifest, specHash, planHash)));
    Ok(Ids("idx2-" + specHash, planHash, artifact))
  }

  /** The manifest without the two fields that are recomputed. */
  function Outside(ms: seq<Member>): seq<Member> {
    if ms == [] then []
    else if ms[0].key in {SPEC_FIELD, PLAN_FIELD} then Outside(ms[1..])
    else [ms[0]] + Outside(ms[1..])
  }

  // ----- assignment and projection --------------------------------------------

  lemma PrependKeepsDistinct(h: Member, ms: seq<Member>)
    requires DistinctKeys(ms) && forall m | m in ms :: m.key != h.key
    ensures DistinctKeys([h] + ms)
  {
  }

  lemma {:induction false} AssignStores(ms: seq<Member>, k: Key, v: Value)
    requires DistinctKeys(ms)
    ensures DistinctKeys(Assign(ms, k, v))
    ensures forall m :: m in Assign(ms, k, v) <==> m == Member(k, v) || (m in ms && m.key != k)
  {
    hide SPEC_FIELD, PLAN_FIELD;
    if ms != [] {
      var h, rest := ms[0], ms[1..];
      HeadKeyIsNew(ms);
      assert ms == [h] + rest;
      assert DistinctKeys(rest);
      assert forall m | m in rest :: m.key in KeySet(rest) && m.key != h.key;
      if h.key == k {
        PrependKeepsDistinct(Member(k, v), rest);
        assert Assign(ms, k, v) == [Member(k, v)] + rest;
        hide DistinctKeys;
      } else {
        var done := Assign(rest, k, v);
        AssignStores(rest, k, v);
        assert Assign(ms, k, v) == [h] + done;
        PrependKeepsDistinct(h, done);
        hide DistinctKeys;
      }
    }
  }

  lemma {:induction false} OutsideKeeps(ms: seq<Member>)
    requires DistinctKeys(ms)
    ensures DistinctKeys(Outside(ms))
    ensures forall m :: m in Outside(ms) <==> m in ms && m.key !in {SPEC_FIELD, PLAN_FIELD}
  {
    if ms != [] {
      OutsideKeeps(ms[1..]);
      assert ms == [ms[0]] + ms[1..];
      HeadKeyIsNew(ms);
      assert forall m | m in ms[1..] :: m.key in KeySet(ms[1..]);
    }
  }

  /** The embedded manifest is the outside part plus the two hashes. */
  lemma EmbedIsOutsidePlusHashes(ms: seq<Member>, s: string, p: string)
    requires DistinctKeys(ms)
    ensures DistinctKeys(Embed(ms, s, p)) && DistinctKeys(Outside(ms))
    ensures forall m :: m in Embed(ms, s, p) <==>
              m in Outside(ms) || m == Member(SPEC_FIELD, Value.Str(s)) || m == Member(PLAN_FIELD, Value.Str(p))
  {
    AssignStores(ms, SPEC_FIELD, Value.Str(s));
    AssignStores(Assign(ms, SPEC_FIELD, Value.Str(s)), PLAN_FIELD, Value.Str(p));
    OutsideKeeps(ms);
  }

  lemma EmbedPrintable(ms: seq<Member>, s: string, p: string)
    requires DistinctKeys(ms)
    ensures Printable(Dict(Embed(ms, s, p))) <==> Printable(Dict(Outside(ms)))
  {
    EmbedIsOutsidePlusHashes(ms, s, p);
    var e, o := Embed(ms, s, p), Outside(ms);
    if Printable(Dict(o)) {
      forall m | m in e ensures m.key.Name? && Printable(m.value) {
        assert m in o || m.value.Str?;
      }
    }
    if Printable(Dict(e)) {
      forall m | m in o ensures m.key.Name? && Printable(m.value) {
        assert m in e;
      }
    }
  }

  lemma EmbedWellFormed(ms: seq<Member>, s: string, p: string)
    requires WellFormed(Dict(ms))
    ensures WellFormed(Dict(Embed(ms, s, p))) && WellFormed(Dict(Outside(ms)))
  {
    EmbedIsOutsidePlusHashes(ms, s, p);
    OutsideKeeps(ms);
    forall m | m in Outside(ms) ensures WellFormed(m.value) {
      assert m in ms;
    }
    forall m | m in Embed(ms, s, p) ensures WellFormed(m.value) {
      assert m in Outside(ms) || m.value.Str?;
    }
  }

  /** The embedded key under k, split by field. */
  lemma EmbedLookup(ms: seq<Member>, s: string, p: string, k: Key)
    requires DistinctKeys(ms)
    ensures k in KeySet(Embed(ms, s, p)) <==> k in KeySet(Outside(ms)) || k in {SPEC_FIELD, PLAN_FIELD}
    ensures k in KeySet(Outside(ms)) ==>
              k !in {SPEC_FIELD, PLAN_FIELD} && Lookup(Embed(ms, s, p), k) == Lookup(Outside(ms), k)
    ensures SPEC_FIELD in KeySet(Embed(ms, s, p)) && Lookup(Embed(ms, s, p), SPEC_FIELD) == Value.Str(s)
    ensures PLAN_FIELD in KeySet(Embed(ms, s, p)) && Lookup(Embed(ms, s, p), PLAN_FIELD) == Value.Str(p)
  {
    EmbedIsOutsidePlusHashes(ms, s, p);
    OutsideKeeps(ms);
    var e := Embed(ms, s, p);
    LookupFinds(e, Member(SPEC_FIELD, Value.Str(s)));
    LookupFinds(e, Member(PLAN_FIELD, Value.Str(p)));
    if k in KeySet(Outside(ms)) {
      LookupFinds(e, Member(k, Lookup(Outside(ms), k)));
    }
  }

  /** The two recomputed fields, by name, and every other member as it was. */
  lemma EmbedHolds(ms: seq<Member>, s: string, p: string, k: Key)
    requires DistinctKeys(ms)
    ensures Member(Name("build_spec_sha256"), Value.Str(s)) in Embed(ms, s, p)
    ensures Member(Name("artifact_plan_sha256"), Value.Str(p)) in Embed(ms, s, p)
    ensures forall m: Member | m.key !in {Name("build_spec_sha256"), Name("artifact_plan_sha256")} ::
              m in Embed(ms, s, p) <==> m in ms
  {
    EmbedIsOutsidePlusHashes(ms, s, p);
    OutsideKeeps(ms);
    assert SPEC_FIELD.text[0] != PLAN_FIELD.text[0];
  }

  /** Two embedded manifests are the same document exactly when hashes and outside parts agree. */
  lemma EmbedSameDocument(ms: seq<Member>, s: string, p: string, ns: seq<Member>, s': string, p': string)
    requires DistinctKeys(ms) && DistinctKeys(ns)
    ensures SameDocument(Dict(Embed(ms, s, p)), Dict(Embed(ns, s', p'))) <==>
            s == s' && p == p' && SameDocument(Dict(Outside(ms)), Dict(Outside(ns)))
  {
    var e, f := Embed(ms, s, p), Embed(ns, s', p');
    if SameDocument(Dict(e), Dict(f)) {
      EmbedLookup(ms, s, p, SPEC_FIELD);
      EmbedLookup(ns, s', p', SPEC_FIELD);
      assert SameDocument(Lookup(e, SPEC_FIELD), Lookup(f, SPEC_FIELD));
      assert SameDocument(Lookup(e, PLAN_FIELD), Lookup(f, PLAN_FIELD));
      SameOutside(ms, s, p, ns, s', p');
    }
    if s == s' && p == p' && SameDocument(Dict(Outside(ms)), Dict(Outside(ns))) {
      SameEmbedded(ms, ns, s, p);
    }
  }

  lemma SameOutside(ms: seq<Member>, s: string, p: string, ns: seq<Member>, s': string, p': string)
    requires DistinctKeys(ms) && DistinctKeys(ns)
    requires SameDocument(Dict(Embed(ms, s, p)), Dict(Embed(ns, s', p')))
    ensures SameDocument(Dict(Outside(ms)), Dict(Outside(ns)))
  {
    var e, f, o, q := Embed(ms, s, p), Embed(ns, s', p'), Outside(ms), Outside(ns);
    forall k ensures k in KeySet(o) <==> k in KeySet(q) {
      EmbedLookup(ms, s, p, k);
      EmbedLookup(ns, s', p', k);
      assert k in KeySet(e) <==> k in KeySet(f);
    }
    forall k | k in KeySet(o) ensures SameDocument(Lookup(o, k), Lookup(q, k)) {
      EmbedLookup(ms, s, p, k);
      EmbedLookup(ns, s', p', k);
      assert SameDocument(Lookup(e, k), Lookup(f, k));
    }
  }

  lemma SameEmbedded(ms: seq<Member>, ns: seq<Member>, s: string, p: string)
    requires DistinctKeys(ms) && DistinctKeys(ns)
    requires SameDocument(Dict(Outside(ms)), Dict(Outside(ns)))
    ensures SameDocument(Dict(Embed(ms, s, p)), Dict(Embed(ns, s, p)))
  {
    var e, f, o, q := Embed(ms, s, p), Embed(ns, s, p), Outside(ms), Outside(ns);
    forall k ensures k in KeySet(e) <==> k in KeySet(f) {
      EmbedLookup(ms, s, p, k);
      EmbedLookup(ns, s, p, k);
      assert k in KeySet(o) <==> k in KeySet(q);
    }
    forall k | k in KeySet(e) ensures SameDocument(Lookup(e, k), Lookup(f, k)) {
      EmbedLookup(ms, s, p, k);
      EmbedLookup(ns, s, p, k);
      if k in KeySet(o) {
        assert SameDocument(Lookup(o, k), Lookup(q, k));
      }
    }
  }

  // ----- movement -------------------------------------------------------------------

  /** Three documents a builder hashes together. */
  datatype Build = Build(spec: Value, plan: Value, manifest: seq<Member>)

  predicate Loaded(b: Build) {
    WellFormed(b.spec) && WellFormed(b.plan) && WellFormed(Dict(b.manifest))
  }

  predicate Hashable(b: Build) {
    Printable(b.spec) && Printable(b.plan) && Printable(Dict(Outside(b.manifest)))
  }

  /** Documents that were loaded from JSON and can be hashed. */
  type HashableBuild = b: Build | Loaded(b) && Hashable(b) witness Build(Null, Null, [])

  /** Identifiers exist exactly when everything that is not recomputed can be printed. */
  lemma IdsExist(sha: Digest, b: Build)
    requires Loaded(b)
    ensures ComputeIds(sha, b.spec, b.plan, b.manifest).Ok? <==> Hashable(b)
  {
    SerializeAcceptsPrintable(b.spec, "$");
    SerializeAcceptsPrintable(b.plan, "$");
    if Printable(b.spec) && Printable(b.plan) {
      var s, p := sha(CanonicalText(b.spec)), sha(CanonicalText(b.plan));
      SerializeAcceptsPrintable(Dict(Embed(b.manifest, s, p)), "$");
      EmbedPrintable(b.manifest, s, p);
    }
  }

  /** The three texts that are hashed for a build. */
  function HashedTexts(sha: Digest, b: Build): (string, string, string)
    requires Loaded(b) && Hashable(b)
  {
    var spec, plan := CanonicalText(b.spec), CanonicalText(b.plan);
    EmbedPrintable(b.manifest, sha(spec), sha(plan));
    (spec, plan, CanonicalText(Dict(Embed(b.manifest, sha(spec), sha(plan)))))
  }

  function IdsOf(sha: Digest, b: Build): (r: Ids)
    requires Loaded(b) && Hashable(b)
    ensures ComputeIds(sha, b.spec, b.plan, b.manifest) == Ok(r)
  {
    IdsExist(sha, b);
    ComputeIds(sha, b.spec, b.plan, b.manifest).value
  }

  predicate CollisionFree(sha: Digest, b: Build, c: Build)
    requires Loaded(b) && Hashable(b) && Loaded(c) && Hashable(c)
  {
    var t, u := HashedTexts(sha, b), HashedTexts(sha, c);
    NoCollision(sha, t.0, u.0) && NoCollision(sha, t.1, u.1) && NoCollision(sha, t.2, u.2)
  }

  predicate SameSpec(b: Build, c: Build) { SameDocument(b.spec, c.spec) }

  predicate SamePlan(b: Build, c: Build) { SameDocument(b.plan, c.plan) }

  predicate SameRest(b: Build, c: Build) {
    SameDocument(Dict(Outside(b.manifest)), Dict(Outside(c.manifest)))
  }

  lemma SpecAndPlanTexts(sha: Digest, b: Build, c: Build)
    requires Loaded(b) && Hashable(b) && Loaded(c) && Hashable(c)
    ensures HashedTexts(sha, b).0 == HashedTexts(sha, c).0 <==> SameSpec(b, c)
    ensures HashedTexts(sha, b).1 == HashedTexts(sha, c).1 <==> SamePlan(b, c)
  {
    CanonicalTextIsIdentity(b.spec, c.spec);
    CanonicalTextIsIdentity(b.plan, c.plan);
  }

  lemma ManifestTexts(sha: Digest, b: Build, c: Build)
    requires Loaded(b) && Hashable(b) && Loaded(c) && Hashable(c)
    ensures var t, u := HashedTexts(sha, b), HashedTexts(sha, c);
            t.2 == u.2 <==> sha(t.0) == sha(u.0) && sha(t.1) == sha(u.1) && SameRest(b, c)
  {
    var s, p := sha(CanonicalText(b.spec)), sha(CanonicalText(b.plan));
    var s', p' := sha(CanonicalText(c.spec)), sha(CanonicalText(c.plan));
    EmbedWellFormed(b.manifest, s, p);
    EmbedWellFormed(c.manifest, s', p');
    EmbedPrintable(b.manifest, s, p);
    EmbedPrintable(c.manifest, s', p');
    CanonicalTextIsIdentity(Dict(Embed(b.manifest, s, p)), Dict(Embed(c.manifest, s', p')));
    EmbedSameDocument(b.manifest, s, p, c.manifest, s', p');
  }

  /** Every identifier moves exactly when a document it covers is no longer the same JSON value,
      unless the digest collides on the texts at hand. */
  lemma IdentifierMovement(sha: Digest, b: HashableBuild, c: HashableBuild)
    ensures CollisionFree(sha, b, c) ==>
              (IdsOf(sha, b).indexVersionId == IdsOf(sha, c).indexVersionId <==> SameSpec(b, c)) &&
              (IdsOf(sha, b).artifactPlanSha256 == IdsOf(sha, c).artifactPlanSha256 <==> SamePlan(b, c)) &&
              (IdsOf(sha, b).artifactId == IdsOf(sha, c).artifactId <==>
                SameSpec(b, c) && SamePlan(b, c) && SameRest(b, c))
  {
    SpecAndPlanTexts(sha, b, c);
    ManifestTexts(sha, b, c);
    IdsAreDigests(sha, b);
    IdsAreDigests(sha, c);
    PrefixedEqual("idx2-", sha(HashedTexts(sha, b).0), sha(HashedTexts(sha, c).0));
  }

  lemma IdsAreDigests(sha: Digest, b: Build)
    requires Loaded(b) && Hashable(b)
    ensures var t := HashedTexts(sha, b); IdsOf(sha, b) == Ids("idx2-" + sha(t.0), sha(t.1), sha(t.2))
  {
    IdsExist(sha, b);
  }

  lemma PrefixedEqual(p: string, a: string, b: string)
    ensures p + a == p + b <==> a == b
  {
    if p + a == p + b {
      assert (p + a)[|p|..] == a && (p + b)[|p|..] == b;
    }
  }

  // ----- the vector generator ---------------------------------------------------------

  datatype Moves = Neither | Artifact | Logical

  /** The two identifiers whose movement is recorded. */
  datatype IdName = IndexVersionId | ArtifactId

  function Moved(base: Ids, got: Ids): set<IdName> {
    (if got.indexVersionId != base.indexVersionId then {IndexVersionId} else {}) +
    (if got.artifactId != base.artifactId then {ArtifactId} else {})
  }

  function Expected(moves: Moves): set<IdName> {
    match moves
    case Neither => {}
    case Artifact => {ArtifactId}
    case Logical => {IndexVersionId, ArtifactId}
  }

  /** The documented class of an edit, told from the documents alone. */
  function ClassOf(b: Build, c: Build): Moves {
    EditClass(SameSpec(b, c), SamePlan(b, c), SameRest(b, c))
  }

  function EditClass(sameSpec: bool, samePlan: bool, sameRest: bool): Moves {
    if !sameSpec then Logical else if samePlan && sameRest then Neither else Artifact
  }

  lemma MovedByComparison(base: Ids, got: Ids, sameSpec: bool, samePlan: bool, sameRest: bool)
    requires got.indexVersionId == base.indexVersionId <==> sameSpec
    requires got.artifactId == base.artifactId <==> sameSpec && samePlan && sameRest
    ensures Moved(base, got) == Expected(EditClass(sameSpec, samePlan, sameRest))
    ensures forall moves :: Moved(base, got) == Expected(moves) <==> moves == EditClass(sameSpec, samePlan, sameRest)
    ensures Moved(base, got) != {IndexVersionId}
  {
    assert ArtifactId in Expected(Artifact) && ArtifactId !in Expected(Neither);
    assert IndexVersionId in Expected(Logical) && IndexVersionId !in Expected(Artifact);
    assert ArtifactId in Expected(Logical) && ArtifactId !in {IndexVersionId};
  }

  /** The set that moved is always one of the three documented ones, and it names the edit's class;
      in particular the index version never moves alone. */
  lemma MovedIsTheClass(sha: Digest, b: HashableBuild, c: HashableBuild)
    ensures CollisionFree(sha, b, c) ==>
              Moved(IdsOf(sha, b), IdsOf(sha, c)) == Expected(ClassOf(b, c)) &&
              (forall moves :: Moved(IdsOf(sha, b), IdsOf(sha, c)) == Expected(moves) <==> moves == ClassOf(b, c)) &&
              Moved(IdsOf(sha, b), IdsOf(sha, c)) != {IndexVersionId}
  {
    IdentifierMovement(sha, b, c);
    if CollisionFree(sha, b, c) {
      MovedByComparison(IdsOf(sha, b), IdsOf(sha, c), SameSpec(b, c), SamePlan(b, c), SameRest(b, c));
    }
  }

  /** Told from the identifiers: nothing moved, the artifact alone moved, or the index version did. */
  lemma ClassTellsIds(sha: Digest, b: HashableBuild, c: HashableBuild)
    ensures CollisionFree(sha, b, c) ==>
              (ClassOf(b, c) == Neither <==> IdsOf(sha, b).artifactId == IdsOf(sha, c).artifactId) &&
              (ClassOf(b, c) == Logical <==> IdsOf(sha, b).indexVersionId != IdsOf(sha, c).indexVersionId) &&
              (ClassOf(b, c) == Artifact <==>
                IdsOf(sha, b).artifactId != IdsOf(sha, c).artifactId &&
                IdsOf(sha, b).indexVersionId == IdsOf(sha, c).indexVersionId)
  {
    IdentifierMovement(sha, b, c);
    hide IdsOf, CollisionFree, SameSpec, SamePlan, SameRest, Loaded, Hashable;
  }

  /** Each mutator edits its own document and no other: what it left alone keeps its identifiers. */
  lemma EditsStayApart(sha: Digest, b: HashableBuild, specM: Option<Value -> Value>, planM: Option<Value -> Value>,
                       manM: Option<seq<Member> -> seq<Member>>)
    ensures var c := Edited(b, specM, planM, manM);
            (specM.Some? ==> c.spec == specM.value(b.spec)) && (planM.Some? ==> c.plan == planM.value(b.plan)) &&
            (manM.Some? ==> c.manifest == manM.value(b.manifest))
    ensures var c := Edited(b, specM, planM, manM);
            Loaded(c) && Hashable(c) ==>
              (specM.None? ==> IdsOf(sha, c).indexVersionId == IdsOf(sha, b).indexVersionId) &&
              (planM.None? ==> IdsOf(sha, c).artifactPlanSha256 == IdsOf(sha, b).artifactPlanSha256) &&
              (specM.None? && planM.None? && manM.None? ==> IdsOf(sha, c) == IdsOf(sha, b))
  {
    var c := Edited(b, specM, planM, manM);
    if Loaded(c) && Hashable(c) {
      IdsAreDigests(sha, b);
      IdsAreDigests(sha, c);
    }
  }

  datatype Vector = Vector(name: string, moves: Moves, ids: Ids)

  datatype CaseResult = Recorded | Refused(failure: Failure) | WrongClass

  /** The baseline with each document that has a mutator replaced by its mutation. */
  function Edited(b: Build, specM: Option<Value -> Value>, planM: Option<Value -> Value>,
                  manM: Option<seq<Member> -> seq<Member>>): Build {
    Build(if specM.Some? then specM.value(b.spec) else b.spec,
          if planM.Some? then planM.value(b.plan) else b.plan,
          if manM.Some? then manM.value(b.manifest) else b.manifest)
  }

  class VectorRun {
    const sha: Digest
    const baseline: Build
    const base: Ids
    var cases: seq<Vector>

    ghost predicate Valid() {
      Loaded(baseline) && Hashable(baseline) && base == IdsOf(sha, baseline)
    }

    constructor (sha: Digest, baseline: Build)
      requires Loaded(baseline) && Hashable(baseline)
      ensures Valid() && cases == [] && this.sha == sha && this.baseline == baseline
    {
      this.sha, this.baseline := sha, baseline;
      base := IdsOf(sha, baseline);
      cases := [];
    }

    /** Records a vector, unless the edited documents cannot be hashed or move the wrong identifiers. */
    method Case(name: string, moves: Moves, specM: Option<Value -> Value>, planM: Option<Value -> Value>,
                manM: Option<seq<Member> -> seq<Member>>)
      returns (r: CaseResult)
      requires Valid() && Loaded(Edited(baseline, specM, planM, manM))
      modifies this`cases
      ensures var c := Edited(baseline, specM, planM, manM);
              (r.Refused? <==> !Hashable(c)) &&
              (Hashable(c) && CollisionFree(sha, baseline, c) ==> (r == Recorded <==> moves == ClassOf(baseline, c))) &&
              cases == old(cases) + if r == Recorded then [Vector(name, moves, IdsOf(sha, c))] else []
    {
      hide Loaded, Hashable, CollisionFree, ClassOf, ComputeIds, Edited;
      var c := Edited(baseline, specM, planM, manM);
      IdsExist(sha, c);
      var got := ComputeIds(sha, c.spec, c.plan, c.manifest);
      if got.Err? {
        return Refused(got.error);
      }
      if CollisionFree(sha, baseline, c) {
        MovedIsTheClass(sha, baseline, c);
      }
      var moved: set<IdName> := {};
      if got.value.indexVersionId != base.indexVersionId {
        moved := moved + {IndexVersionId};
      }
      if got.value.artifactId != base.artifactId {
        moved := moved + {ArtifactId};
      }
      assert moved == Moved(base, got.value);
      if moved != Expected(moves) {
        return WrongClass;
      }
      cases := cases + [Vector(name, moves, got.value)];
      r := Recorded;
    }
  }
}
