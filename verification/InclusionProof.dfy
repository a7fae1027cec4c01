/** Inclusion proofs of frozen manifests: verifying one, capturing one, and why they cannot equivocate. */
module InclusionProof {
  import opened GitObjects
  import opened Text
  import opened Wrappers

  /** A base64 field of a proof: absent, not decodable, or decoded. */
  datatype Field = Missing | Malformed | Data(bytes: Bytes)

  datatype Proof = Proof(commitObject: Field, treeObjects: Option<seq<Field>>, manifestBlob: Field)

  /** What the proof checker relies on: SHA-1, UTF-8, JSON reading, and a manifest's id. */
  datatype Env<!D(==)> = Env(sha1: Bytes -> RawId, utf8: string -> Bytes, loads: Bytes -> Option<D>, idOf: D -> string)

  const BLOB_MODE: Bytes := Ascii("100644")
  const TREE_MODE: Bytes := Ascii("40000")

  function Replace(s: string, from: char, to: char): string {
    seq(|s|, i requires 0 <= i < |s| => if s[i] == from then to else s[i])
  }

  /** server/conformance/results/<id>.json, as path components. */
  function PathNames<D(==)>(env: Env<D>, id: string): (r: seq<Bytes>)
    ensures |r| == 4
  {
    [Ascii("server"), Ascii("conformance"), Ascii("results"), env.utf8(Replace(id, ':', '-') + ".json")]
  }

  function ModeAt(index: nat): Bytes {
    if index == 3 then BLOB_MODE else TREE_MODE
  }

  /** commit_data.split(b"\n", 1)[0] */
  function FirstLine(s: Bytes): Bytes {
    s[..Find(s, NEWLINE)]
  }

  function Decoded(f: Field): Result<Bytes, ProofError> {
    match f
    case Missing => Err(MalformedProof)
    case Malformed => Err(InvalidBase64)
    case Data(b) => Ok(b)
  }

  /** The id of the root tree a commit object names. */
  function RootTree(commitData: Bytes): Result<string, ProofError> {
    var header := FirstLine(commitData);
    if !(Ascii("tree ") <= header) then Err(MissingCommitTree)
    else
      var id := AsciiText(header[5..]);
      if id.None? then Err(MalformedProof) else Ok(id.value)
  }

  /** Checks tree objects from position i on; the id the path leads to. */
  function FollowTrees<D(==)>(env: Env<D>, trees: seq<Field>, names: seq<Bytes>, i: nat, expected: string)
    : Result<string, ProofError>
    requires |trees| == |names| == 4 && i <= 4
    decreases 4 - i
  {
    if i == 4 then Ok(expected)
    else
      var tree :- Decoded(trees[i]);
      if ObjectId(env.sha1, Tree, tree) != expected then Err(TreeObjectMismatch)
      else
        var next :- ChildOf(tree, names[i], ModeAt(i));
        FollowTrees(env, trees, names, i + 1, next)
  }

  /** What a proof is checked to be. */
  function Checked<D(==)>(env: Env<D>, manifest: D, commit: string, proof: Proof): Result<(), ProofError> {
    var commitData :- Decoded(proof.commitObject);
    if ObjectId(env.sha1, Commit, commitData) != commit then Err(CommitObjectMismatch)
    else
      var root :- RootTree(commitData);
      if proof.treeObjects.None? then Err(MalformedProof)
      else if |proof.treeObjects.value| != 4 then Err(InvalidTreeChain)
      else
        var names := PathNames(env, env.idOf(manifest));
        var last :- FollowTrees(env, proof.treeObjects.value, names, 0, root);
        var blob :- Decoded(proof.manifestBlob);
        if ObjectId(env.sha1, Blob, blob) != last || env.loads(blob) != Some(manifest)
        then Err(CommittedManifestMismatch) else Ok(())
  }

  method Verify<D(==)>(env: Env<D>, manifest: D, commit: string, proof: Proof) returns (r: Result<(), ProofError>)
    ensures r == Checked(env, manifest, commit, proof)
  {
    var commitData := Decoded(proof.commitObject);
    if commitData.Err? { return Err(commitData.error); }
    if ObjectId(env.sha1, Commit, commitData.value) != commit { return Err(CommitObjectMismatch); }
    var header := FirstLine(commitData.value);
    if !(Ascii("tree ") <= header) { return Err(MissingCommitTree); }
    var text := AsciiText(header[5..]);
    if text.None? { return Err(MalformedProof); }
    var expected := text.value;
    var names := PathNames(env, env.idOf(manifest));
    if proof.treeObjects.None? { return Err(MalformedProof); }
    var trees := proof.treeObjects.value;
    if |trees| != |names| { return Err(InvalidTreeChain); }
    var index := 0;
    while index < |names|
      invariant 0 <= index <= 4
      invariant FollowTrees(env, trees, names, index, expected) == FollowTrees(env, trees, names, 0, text.value)
    {
      var tree := Decoded(trees[index]);
      if tree.Err? { return Err(tree.error); }
      if ObjectId(env.sha1, Tree, tree.value) != expected { return Err(TreeObjectMismatch); }
      var next := Child(tree.value, names[index], ModeAt(index));
      if next.Err? { return Err(next.error); }
      expected := next.value;
      index := index + 1;
    }
    var blob := Decoded(proof.manifestBlob);
    if blob.Err? { return Err(blob.error); }
    if ObjectId(env.sha1, Blob, blob.value) != expected || env.loads(blob.value) != Some(manifest) {
      return Err(CommittedManifestMismatch);
    }
    r := Ok(());
  }

  // ----- no equivocation ------------------------------------------------------------

  /** One accepted step down the path. */
  lemma FollowOne<D>(env: Env<D>, trees: seq<Field>, names: seq<Bytes>, i: nat, expected: string) returns (next: string)
    requires |trees| == |names| == 4 && i < 4 && FollowTrees(env, trees, names, i, expected).Ok?
    ensures trees[i].Data? && ObjectId(env.sha1, Tree, trees[i].bytes) == expected
    ensures ChildOf(trees[i].bytes, names[i], ModeAt(i)) == Ok(next)
    ensures FollowTrees(env, trees, names, i, expected) == FollowTrees(env, trees, names, i + 1, next)
  {
    next := ChildOf(trees[i].bytes, names[i], ModeAt(i)).value;
  }

  /** What git hashes for a field that should hold an object of that kind. */
  function Hashed(k: Kind, f: Field): Bytes {
    if f.Data? then Encoding(k, f.bytes) else []
  }

  /** SHA-1 collides on two tree objects at the same place. */
  predicate TreesCollide(sha1: Bytes -> RawId, s: seq<Field>, t: seq<Field>) {
    exists j | 0 <= j < |s| && j < |t| :: Collide(sha1, Hashed(Tree, s[j]), Hashed(Tree, t[j]))
  }

  /** SHA-1 collides on two objects that stand at the same place of two proofs. */
  predicate ProofsCollide(sha1: Bytes -> RawId, p: Proof, q: Proof) {
    Collide(sha1, Hashed(Commit, p.commitObject), Hashed(Commit, q.commitObject)) ||
    (p.treeObjects.Some? && q.treeObjects.Some? && TreesCollide(sha1, p.treeObjects.value, q.treeObjects.value)) ||
    Collide(sha1, Hashed(Blob, p.manifestBlob), Hashed(Blob, q.manifestBlob))
  }

  /** Two accepted chains that expect the same tree take the same step. */
  lemma FollowBoth<D>(env: Env<D>, s: seq<Field>, t: seq<Field>, names: seq<Bytes>, i: nat, expected: string)
    returns (next: string)
    requires |s| == |t| == |names| == 4 && i < 4 && !TreesCollide(env.sha1, s, t)
    requires FollowTrees(env, s, names, i, expected).Ok? && FollowTrees(env, t, names, i, expected).Ok?
    ensures s[i] == t[i]
    ensures FollowTrees(env, s, names, i, expected) == FollowTrees(env, s, names, i + 1, next)
    ensures FollowTrees(env, t, names, i, expected) == FollowTrees(env, t, names, i + 1, next)
  {
    next := FollowOne(env, s, names, i, expected);
    var next' := FollowOne(env, t, names, i, expected);
    hide FollowTrees, ChildOf, ObjectId, Encoding;
    ObjectIdNames(env.sha1, Tree, s[i].bytes, Tree, t[i].bytes);
    assert !Collide(env.sha1, Hashed(Tree, s[i]), Hashed(Tree, t[i]));
  }

  lemma {:induction false} ChainsAgree<D>(env: Env<D>, s: seq<Field>, t: seq<Field>, names: seq<Bytes>, i: nat,
                                          expected: string)
    requires |s| == |t| == |names| == 4 && i <= 4 && !TreesCollide(env.sha1, s, t)
    requires FollowTrees(env, s, names, i, expected).Ok? && FollowTrees(env, t, names, i, expected).Ok?
    ensures forall j | i <= j < 4 :: s[j] == t[j]
    ensures FollowTrees(env, s, names, i, expected) == FollowTrees(env, t, names, i, expected)
    decreases 4 - i
  {
    hide TreesCollide, ChildOf, ObjectId, Decoded;
    if i < 4 {
      hide FollowTrees;
      var next := FollowBoth(env, s, t, names, i, expected);
      ChainsAgree(env, s, t, names, i + 1, next);
    }
  }

  /** A commit of that id, and a chain of ids from the root down the path to the blob. */
  predicate Linked<D(==)>(env: Env<D>, commit: string, names: seq<Bytes>, p: Proof, root: string)
    requires |names| == 4
  {
    p.commitObject.Data? && p.treeObjects.Some? && |p.treeObjects.value| == 4 && p.manifestBlob.Data? &&
    ObjectId(env.sha1, Commit, p.commitObject.bytes) == commit &&
    FollowTrees(env, p.treeObjects.value, names, 0, root) == Ok(ObjectId(env.sha1, Blob, p.manifestBlob.bytes))
  }

  /** A proof is accepted exactly when it links the commit's tree to a blob that holds the manifest. */
  lemma AcceptedParts<D>(env: Env<D>, manifest: D, commit: string, p: Proof)
    ensures Checked(env, manifest, commit, p).Ok? <==>
            p.commitObject.Data? && RootTree(p.commitObject.bytes).Ok? &&
            Linked(env, commit, PathNames(env, env.idOf(manifest)), p, RootTree(p.commitObject.bytes).value) &&
            env.loads(p.manifestBlob.bytes) == Some(manifest)
  {
  }

  /** Two proofs with accepted parts, for the same commit and path, are the same proof. */
  lemma SameParts<D>(env: Env<D>, commit: string, names: seq<Bytes>, p: Proof, root: string, q: Proof, root': string)
    requires |names| == 4 && !ProofsCollide(env.sha1, p, q)
    requires Linked(env, commit, names, p, root) && Linked(env, commit, names, q, root')
    requires p.commitObject == q.commitObject ==> root == root'
    ensures p == q
  {
    ObjectIdNames(env.sha1, Commit, p.commitObject.bytes, Commit, q.commitObject.bytes);
    var s, t := p.treeObjects.value, q.treeObjects.value;
    ChainsAgree(env, s, t, names, 0, root);
    assert s == t;
    ObjectIdNames(env.sha1, Blob, p.manifestBlob.bytes, Blob, q.manifestBlob.bytes);
  }

  /** Two accepted proofs for one commit and one manifest id are the same proof of the same manifest,
      unless they exhibit a SHA-1 collision. */
  lemma NoEquivocation<D>(env: Env<D>, commit: string, m: D, p: Proof, n: D, q: Proof)
    requires env.idOf(m) == env.idOf(n)
    requires Checked(env, m, commit, p).Ok? && Checked(env, n, commit, q).Ok?
    ensures (p == q && m == n) || ProofsCollide(env.sha1, p, q)
  {
    AcceptedParts(env, m, commit, p);
    AcceptedParts(env, n, commit, q);
    if !ProofsCollide(env.sha1, p, q) {
      hide Checked;
      SameParts(env, commit, PathNames(env, env.idOf(m)), p, RootTree(p.commitObject.bytes).value,
                q, RootTree(q.commitObject.bytes).value);
    }
  }

  // ----- capturing a proof from a repository -----------------------------------------

  /** Objects by kind and id, as `git cat-file` finds them. */
  type Store = map<(Kind, string), Bytes>

  /** Every object is stored under its own id. */
  ghost predicate Consistent<D>(env: Env<D>, store: Store) {
    forall key | key in store :: ObjectId(env.sha1, key.0, store[key]) == key.1
  }

  function Get(store: Store, k: Kind, id: string): Result<Bytes, ProofError> {
    if (k, id) in store then Ok(store[(k, id)]) else Err(ObjectNotFound)
  }

  /** The id after "tree " in a commit; capture does not check the word itself, and an id that
      is not ASCII names no object. */
  function CapturedRoot(commitData: Bytes): Result<string, ProofError> {
    var header := FirstLine(commitData);
    var id := AsciiText(if |header| < 5 then [] else header[5..]);
    if id.None? then Err(ObjectNotFound) else Ok(id.value)
  }

  /** The four tree objects on the path, and the id of the blob at its end. */
  function WalkTrees(store: Store, names: seq<Bytes>, i: nat, id: string)
    : (r: Result<(seq<Field>, string), ProofError>)
    requires |names| == 4 && i <= 4
    ensures r.Ok? ==> |r.value.0| == 4 - i
    decreases 4 - i
  {
    if i == 4 then Ok(([], id))
    else
      var tree :- Get(store, Tree, id);
      var next :- ChildOf(tree, names[i], ModeAt(i));
      var rest :- WalkTrees(store, names, i + 1, next);
      Ok(([Data(tree)] + rest.0, rest.1))
  }

  /** The objects met walking a commit's tree down the path of a manifest id. */
  function Walk<D(==)>(env: Env<D>, store: Store, id: string, commit: string): Result<Proof, ProofError> {
    var commitData :- Get(store, Commit, commit);
    var root :- CapturedRoot(commitData);
    var path :- WalkTrees(store, PathNames(env, id), 0, root);
    var blob :- Get(store, Blob, path.1);
    Ok(Proof(Data(commitData), Some(path.0), Data(blob)))
  }

  /** The walk's objects, when they check. */
  function Captured<D(==)>(env: Env<D>, store: Store, manifest: D, commit: string): Result<Proof, ProofError> {
    var p :- Walk(env, store, env.idOf(manifest), commit);
    var _ :- Checked(env, manifest, commit, p);
    Ok(p)
  }

  /** What the walk gives when some trees were already met. */
  function WalkAfter(trees: seq<Field>, rest: Result<(seq<Field>, string), ProofError>): Result<(seq<Field>, string), ProofError> {
    if rest.Ok? then Ok((trees + rest.value.0, rest.value.1)) else rest
  }

  lemma WalkAfterOne(store: Store, names: seq<Bytes>, i: nat, id: string, trees: seq<Field>, tree: Bytes, next: string)
    requires |names| == 4 && i < 4 && Get(store, Tree, id) == Ok(tree) && ChildOf(tree, names[i], ModeAt(i)) == Ok(next)
    ensures WalkAfter(trees, WalkTrees(store, names, i, id)) ==
            WalkAfter(trees + [Data(tree)], WalkTrees(store, names, i + 1, next))
  {
    hide ChildOf, ModeAt;
    var rest := WalkTrees(store, names, i + 1, next);
    if rest.Ok? {
      assert trees + ([Data(tree)] + rest.value.0) == trees + [Data(tree)] + rest.value.0;
    }
  }

  lemma WalkStarts(rest: Result<(seq<Field>, string), ProofError>, trees: seq<Field>, id: string)
    ensures WalkAfter([], rest) == rest && WalkAfter(trees, Ok(([], id))) == Ok((trees, id))
  {
    if rest.Ok? { assert [] + rest.value.0 == rest.value.0; }
    assert trees + [] == trees;
  }

  /** The loop over the path: one tree object after the other. */
  method CaptureTrees(store: Store, names: seq<Bytes>, root: string)
    returns (r: Result<(seq<Field>, string), ProofError>)
    requires |names| == 4
    ensures r == WalkTrees(store, names, 0, root)
  {
    hide ChildOf, ModeAt;
    var identity := root;
    var trees: seq<Field> := [];
    WalkStarts(WalkTrees(store, names, 0, root), [], "");
    var index := 0;
    while index < |names|
      invariant 0 <= index <= 4
      invariant WalkTrees(store, names, 0, root) == WalkAfter(trees, WalkTrees(store, names, index, identity))
    {
      var tree := Get(store, Tree, identity);
      if tree.Err? { return Err(tree.error); }
      var next := Child(tree.value, names[index], ModeAt(index));
      if next.Err? { return Err(next.error); }
      WalkAfterOne(store, names, index, identity, trees, tree.value, next.value);
      trees := trees + [Data(tree.value)];
      identity := next.value;
      index := index + 1;
    }
    WalkStarts(Ok(([], identity)), trees, identity);
    r := Ok((trees, identity));
  }

  method Capture<D(==)>(env: Env<D>, store: Store, manifest: D, commit: string)
    returns (r: Result<Proof, ProofError>)
    ensures r == Captured(env, store, manifest, commit)
  {
    hide WalkTrees, PathNames, Checked, CapturedRoot;
    var commitData := Get(store, Commit, commit);
    if commitData.Err? { return Err(commitData.error); }
    var root := CapturedRoot(commitData.value);
    if root.Err? { return Err(root.error); }
    var names := PathNames(env, env.idOf(manifest));
    var path := CaptureTrees(store, names, root.value);
    if path.Err? { return Err(path.error); }
    var (trees, identity) := path.value;
    var blob := Get(store, Blob, identity);
    if blob.Err? { return Err(blob.error); }
    var proof := Proof(Data(commitData.value), Some(trees), Data(blob.value));
    var checked := Verify(env, manifest, commit, proof);
    if checked.Err? { return Err(checked.error); }
    r := Ok(proof);
  }

  lemma {:induction false} WalkedTreesFollow<D>(env: Env<D>, store: Store, names: seq<Bytes>, i: nat, id: string,
                                                    trees: seq<Field>)
    requires Consistent(env, store) && |names| == |trees| == 4 && i <= 4
    requires WalkTrees(store, names, i, id).Ok? && trees[i..] == WalkTrees(store, names, i, id).value.0
    ensures FollowTrees(env, trees, names, i, id) == Ok(WalkTrees(store, names, i, id).value.1)
    decreases 4 - i
  {
    hide ChildOf, ObjectId;
    if i < 4 {
      var tree := Get(store, Tree, id).value;
      var next := ChildOf(tree, names[i], ModeAt(i)).value;
      var rest := WalkTrees(store, names, i + 1, next).value;
      assert trees[i..] == [Data(tree)] + rest.0;
      assert trees[i] == trees[i..][0] && trees[i + 1..] == trees[i..][1..];
      assert (Tree, id) in store;
      WalkedTreesFollow(env, store, names, i + 1, next, trees);
    }
  }

  /** The parts of a walk, and the chain of ids through them. */
  lemma WalkedParts<D>(env: Env<D>, store: Store, id: string, commit: string)
    requires Consistent(env, store) && Walk(env, store, id, commit).Ok?
    ensures var q := Walk(env, store, id, commit).value;
            q.commitObject.Data? && CapturedRoot(q.commitObject.bytes).Ok? &&
            Linked(env, commit, PathNames(env, id), q, CapturedRoot(q.commitObject.bytes).value)
  {
    var names := PathNames(env, id);
    var commitData := Get(store, Commit, commit).value;
    assert (Commit, commit) in store;
    var root := CapturedRoot(commitData).value;
    var path := WalkTrees(store, names, 0, root).value;
    assert (Blob, path.1) in store;
    assert path.0[0..] == path.0;
    WalkedTreesFollow(env, store, names, 0, root, path.0);
  }

  /** The two readings of a commit's tree id agree on commits the checker accepts. */
  lemma RootsAgree(commitData: Bytes)
    ensures RootTree(commitData).Ok? <==>
            Ascii("tree ") <= FirstLine(commitData) && CapturedRoot(commitData).Ok?
    ensures RootTree(commitData).Ok? ==> RootTree(commitData) == CapturedRoot(commitData)
  {
  }

  /** Capture is complete: once the walk reaches a blob, its proof is accepted exactly when the commit
      names its tree in the standard way and the blob holds the manifest. */
  lemma CaptureComplete<D>(env: Env<D>, store: Store, manifest: D, commit: string)
    requires Consistent(env, store) && Walk(env, store, env.idOf(manifest), commit).Ok?
    ensures var p := Walk(env, store, env.idOf(manifest), commit).value;
            p.commitObject.Data? && p.manifestBlob.Data? &&
            (Checked(env, manifest, commit, p).Ok? <==>
              Ascii("tree ") <= FirstLine(p.commitObject.bytes) && env.loads(p.manifestBlob.bytes) == Some(manifest))
  {
    var p := Walk(env, store, env.idOf(manifest), commit).value;
    WalkedParts(env, store, env.idOf(manifest), commit);
    RootsAgree(p.commitObject.bytes);
    AcceptedParts(env, manifest, commit, p);
  }

  /** An accepted proof shows the objects that walking the commit's tree meets, unless it and the walk
      exhibit a SHA-1 collision. */
  lemma AcceptedProofIsTheWalk<D>(env: Env<D>, store: Store, manifest: D, commit: string, p: Proof)
    requires Consistent(env, store) && Walk(env, store, env.idOf(manifest), commit).Ok?
    requires Checked(env, manifest, commit, p).Ok?
    ensures var q := Walk(env, store, env.idOf(manifest), commit).value;
            p == q || ProofsCollide(env.sha1, p, q)
  {
    var q := Walk(env, store, env.idOf(manifest), commit).value;
    AcceptedParts(env, manifest, commit, p);
    WalkedParts(env, store, env.idOf(manifest), commit);
    if !ProofsCollide(env.sha1, p, q) {
      RootsAgree(p.commitObject.bytes);
      hide Checked, Walk;
      SameParts(env, commit, PathNames(env, env.idOf(manifest)), p, RootTree(p.commitObject.bytes).value,
                q, CapturedRoot(q.commitObject.bytes).value);
    }
  }

  // ----- real commits are accepted -----------------------------------------------------

  /** The root is the id on the first line, after the word tree, whatever lines follow. */
  lemma RootRead(id: string, rest: Bytes)
    requires IsAscii(id) && '\n' !in id
    ensures IsAscii("tree " + id)
    ensures RootTree(Ascii("tree " + id) + [10] + rest) == Ok(id)
    ensures CapturedRoot(Ascii("tree " + id) + [10] + rest) == Ok(id)
  {
    var line := Ascii("tree " + id);
    forall i | 0 <= i < |line| ensures line[i] != 10 {
      assert ("tree " + id)[i] != '\n';
    }
    FindSkips(line, NEWLINE, rest);
    var data := line + [10] + rest;
    assert FirstLine(data) == line;
    assert line[..5] == Ascii("tree ");
    forall i | 0 <= i < |line[5..]| ensures line[5..][i] == id[i] as int {
      assert ("tree " + id)[i + 5] == id[i];
    }
    assert AsciiText(line[5..]).value == id;
  }

  /** The file name of a manifest whose id is a scheme and a value. */
  lemma FileName(scheme: string, value: string)
    requires ':' !in scheme && ':' !in value
    ensures Replace(scheme + ":" + value, ':', '-') == scheme + "-" + value
  {
    var s, t := scheme + ":" + value, scheme + "-" + value;
    forall i | 0 <= i < |s| ensures Replace(s, ':', '-')[i] == t[i] {
      if i < |scheme| { assert s[i] == scheme[i]; }
      if i > |scheme| { assert s[i] == value[i - |scheme| - 1] && t[i] == s[i]; }
    }
  }

  /** The four components of the path, and the mode asked at each. */
  lemma PathIs<D>(env: Env<D>, scheme: string, value: string)
    requires ':' !in scheme && ':' !in value
    ensures PathNames(env, scheme + ":" + value) == ResultsPath(env.utf8(scheme + "-" + value + ".json"))
    ensures |RESULTS_MODES| == 4 && forall i | 0 <= i < 4 :: RESULTS_MODES[i] == ModeAt(i)
  {
    FileName(scheme, value);
  }

  /** A store that holds a commit, four trees linked by entries of the given names and modes, and a blob. */
  ghost predicate Repository(store: Store, commit: string, rest: Bytes, root: string, levels: seq<seq<Entry>>,
                             ids: seq<RawId>, names: seq<Bytes>, modes: seq<Bytes>, blob: Bytes)
  {
    IsAscii(root) && IsAscii("tree " + root) && '\n' !in root &&
    |levels| == |ids| == |names| == |modes| == 4 &&
    (forall i | 0 <= i < 4 :: ValidEntries(levels[i]) && Entry(modes[i], names[i], ids[i]) in levels[i]) &&
    Get(store, Commit, commit) == Ok(Ascii("tree " + root) + [10] + rest) &&
    Get(store, Tree, root) == Ok(EncodeTree(levels[0])) &&
    (forall i | 0 <= i < 3 :: Get(store, Tree, Hex(ids[i])) == Ok(EncodeTree(levels[i + 1]))) &&
    Get(store, Blob, Hex(ids[3])) == Ok(blob)
  }

  function TreesFrom(levels: seq<seq<Entry>>, i: nat): seq<Field>
    requires i <= |levels|
    decreases |levels| - i
  {
    if i == |levels| then [] else [Data(EncodeTree(levels[i]))] + TreesFrom(levels, i + 1)
  }

  /** server, conformance, results, and the file. */
  function ResultsPath(file: Bytes): seq<Bytes> {
    [Ascii("server"), Ascii("conformance"), Ascii("results"), file]
  }

  /** Three directories and a regular file. */
  const RESULTS_MODES: seq<Bytes> := [Ascii("40000"), Ascii("40000"), Ascii("40000"), Ascii("100644")]

  lemma WalkOneTree(store: Store, names: seq<Bytes>, i: nat, id: string, entries: seq<Entry>, e: Entry,
                    trees: seq<Field>, last: string)
    requires |names| == 4 && i < 4 && ValidEntries(entries) && e in entries && e.name == names[i] && e.mode == ModeAt(i)
    requires Get(store, Tree, id) == Ok(EncodeTree(entries)) && WalkTrees(store, names, i + 1, Hex(e.id)) == Ok((trees, last))
    ensures WalkTrees(store, names, i, id) == Ok(([Data(EncodeTree(entries))] + trees, last))
  {
    ChildOfEncoded(entries, names[i], ModeAt(i));
  }

  /** From level i on, the walk meets the trees of the remaining levels. */
  lemma {:induction false} WalkLevels(store: Store, commit: string, rest: Bytes, root: string, levels: seq<seq<Entry>>,
                                      ids: seq<RawId>, names: seq<Bytes>, modes: seq<Bytes>, blob: Bytes, i: nat)
    requires Repository(store, commit, rest, root, levels, ids, names, modes, blob) && i <= 4
    requires forall j | 0 <= j < 4 :: modes[j] == ModeAt(j)
    ensures WalkTrees(store, names, i, if i == 0 then root else Hex(ids[i - 1])) ==
            Ok((TreesFrom(levels, i), Hex(ids[3])))
    decreases 4 - i
  {
    hide ModeAt, EncodeTree, Hex, ValidEntries, ChildOf;
    if i < 4 {
      hide WalkTrees;
      WalkLevels(store, commit, rest, root, levels, ids, names, modes, blob, i + 1);
      WalkOneTree(store, names, i, if i == 0 then root else Hex(ids[i - 1]), levels[i],
                  Entry(modes[i], names[i], ids[i]), TreesFrom(levels, i + 1), Hex(ids[3]));
    }
  }

  lemma WalkRepository<D>(env: Env<D>, store: Store, id: string, commit: string, rest: Bytes, root: string,
                          levels: seq<seq<Entry>>, ids: seq<RawId>, modes: seq<Bytes>, blob: Bytes)
    requires Repository(store, commit, rest, root, levels, ids, PathNames(env, id), modes, blob)
    requires forall i | 0 <= i < 4 :: modes[i] == ModeAt(i)
    ensures Walk(env, store, id, commit) ==
            Ok(Proof(Data(Ascii("tree " + root) + [10] + rest), Some(TreesFrom(levels, 0)), Data(blob)))
  {
    RootRead(root, rest);
    WalkLevels(store, commit, rest, root, levels, ids, PathNames(env, id), modes, blob, 0);
    hide WalkTrees, CapturedRoot, PathNames, ModeAt, EncodeTree, Hex, Ascii, TreesFrom;
  }

  /** Capture succeeds on every consistent repository whose commit holds the manifest at
      server/conformance/results/<scheme>-<value>.json, a file in three nested directories, and returns
      exactly the commit, the four trees and the blob. */
  lemma CaptureSucceeds<D>(env: Env<D>, store: Store, manifest: D, commit: string, rest: Bytes, root: string,
                           levels: seq<seq<Entry>>, ids: seq<RawId>, scheme: string, value: string, blob: Bytes)
    requires env.idOf(manifest) == scheme + ":" + value && ':' !in scheme && ':' !in value
    requires Repository(store, commit, rest, root, levels, ids,
                        ResultsPath(env.utf8(scheme + "-" + value + ".json")), RESULTS_MODES, blob)
    requires Consistent(env, store) && env.loads(blob) == Some(manifest)
    ensures Captured(env, store, manifest, commit) ==
            Ok(Proof(Data(Ascii("tree " + root) + [10] + rest), Some(TreesFrom(levels, 0)), Data(blob)))
  {
    PathIs(env, scheme, value);
    hide *;
    WalkRepository(env, store, env.idOf(manifest), commit, rest, root, levels, ids, RESULTS_MODES, blob);
    CommitNamesTree(root, rest);
    WalkedIsCaptured(env, store, manifest, commit, Walk(env, store, env.idOf(manifest), commit).value);
  }

  lemma WalkedIsCaptured<D>(env: Env<D>, store: Store, manifest: D, commit: string, p: Proof)
    requires Consistent(env, store) && Walk(env, store, env.idOf(manifest), commit) == Ok(p)
    requires p.commitObject.Data? && p.manifestBlob.Data?
    requires Ascii("tree ") <= FirstLine(p.commitObject.bytes) && env.loads(p.manifestBlob.bytes) == Some(manifest)
    ensures Captured(env, store, manifest, commit) == Ok(p)
  {
    CaptureComplete(env, store, manifest, commit);
    hide Walk, Checked, Consistent, FirstLine;
  }

  lemma CommitNamesTree(root: string, rest: Bytes)
    requires IsAscii(root) && '\n' !in root
    ensures IsAscii("tree " + root) && Ascii("tree ") <= FirstLine(Ascii("tree " + root) + [10] + rest)
  {
    RootRead(root, rest);
    RootsAgree(Ascii("tree " + root) + [10] + rest);
  }
}
