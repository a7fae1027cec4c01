/** Git object encodings: object ids, trees, and the parser that steps over raw ids. */
module GitObjects {
  import opened Text
  import opened Wrappers

  type Byte = b: int | 0 <= b < 256
  type Bytes = seq<Byte>

  /** A raw SHA-1 value; any byte may be a NUL or a space. */
  type RawId = d: Bytes | |d| == 20 witness seq(20, _ => 0)

  const NUL: Byte := 0
  const SPACE: Byte := 32
  const NEWLINE: Byte := 10

  predicate IsAscii(s: string) {
    forall i | 0 <= i < |s| :: s[i] as int < 128
  }

  function Ascii(s: string): Bytes
    requires IsAscii(s)
  {
    seq(|s|, i requires 0 <= i < |s| => s[i] as int)
  }

  lemma AsciiInjective(s: string, t: string)
    requires IsAscii(s) && IsAscii(t) && Ascii(s) == Ascii(t)
    ensures s == t
  {
    assert |s| == |Ascii(s)| && |t| == |Ascii(t)|;
    forall i | 0 <= i < |s| ensures s[i] == t[i] {
      assert Ascii(s)[i] == Ascii(t)[i];
    }
  }

  /** bytes.decode("ascii") */
  function AsciiText(s: Bytes): Option<string> {
    if forall i | 0 <= i < |s| :: s[i] < 128
    then Some(seq(|s|, i requires 0 <= i < |s| => s[i] as char))
    else None
  }

  // ----- hexadecimal ids --------------------------------------------------------

  function HexDigit(d: nat): char
    requires d < 16
  {
    if d < 10 then '0' + d as char else 'a' + (d - 10) as char
  }

  function Hex(s: Bytes): string {
    if s == [] then "" else [HexDigit(s[0] / 16), HexDigit(s[0] % 16)] + Hex(s[1..])
  }

  lemma {:induction false} HexInjective(s: Bytes, t: Bytes)
    requires Hex(s) == Hex(t)
    ensures s == t
  {
    if s != [] && t != [] {
      assert Hex(s)[0] == Hex(t)[0] && Hex(s)[1] == Hex(t)[1];
      assert Hex(s)[2..] == Hex(s[1..]) && Hex(t)[2..] == Hex(t[1..]);
      HexInjective(s[1..], t[1..]);
      assert s == [s[0]] + s[1..] && t == [t[0]] + t[1..];
    }
  }

  /** The value of a lower-case hexadecimal digit. */
  function DigitOf(c: char): int {
    if '0' <= c <= '9' then c as int - '0' as int else if 'a' <= c <= 'f' then c as int - 'a' as int + 10 else -1
  }

  /** Two digits a byte, the high one first. */
  lemma {:induction false} HexDenotes(s: Bytes, i: nat)
    requires i < |s|
    ensures |Hex(s)| == 2 * |s| && 0 <= DigitOf(Hex(s)[2 * i]) < 16 && 0 <= DigitOf(Hex(s)[2 * i + 1]) < 16
    ensures s[i] == 16 * DigitOf(Hex(s)[2 * i]) + DigitOf(Hex(s)[2 * i + 1])
  {
    if |s| > 1 {
      HexDenotes(s[1..], if i == 0 then 0 else i - 1);
      if i > 0 {
        assert Hex(s)[2 * i] == Hex(s[1..])[2 * (i - 1)] && Hex(s)[2 * i + 1] == Hex(s[1..])[2 * (i - 1) + 1];
      }
    } else {
      assert Hex(s[1..]) == "";
    }
  }

  // ----- splitting -----------------------------------------------------------------

  /** The position of the first b, or the length when there is none. */
  function Find(s: Bytes, b: Byte): (n: nat)
    ensures n <= |s| && b !in s[..n]
    ensures n < |s| ==> s[n] == b
  {
    if s == [] || s[0] == b then 0
    else
      var n := Find(s[1..], b);
      assert s[..n + 1] == [s[0]] + s[1..][..n];
      n + 1
  }

  lemma {:induction false} FindSkips(p: Bytes, b: Byte, rest: Bytes)
    requires b !in p
    ensures Find(p + [b] + rest, b) == |p|
  {
    var s := p + [b] + rest;
    if p != [] {
      assert s[1..] == p[1..] + [b] + rest;
      FindSkips(p[1..], b, rest);
    }
  }

  /** Two byte strings cut at their first b agree exactly when both parts agree. */
  lemma CutUnique(p: Bytes, q: Bytes, b: Byte, r: Bytes, s: Bytes)
    requires b !in p && b !in q
    requires p + [b] + r == q + [b] + s
    ensures p == q && r == s
  {
    FindSkips(p, b, r);
    FindSkips(q, b, s);
    var w := p + [b] + r;
    assert w[..|p|] == p && (q + [b] + s)[..|q|] == q;
    assert w[|p| + 1..] == r && (q + [b] + s)[|q| + 1..] == s;
  }

  // ----- object ids -------------------------------------------------------------------

  datatype Kind = Commit | Tree | Blob

  function KindName(k: Kind): (s: string)
    ensures IsAscii(s)
  {
    match k
    case Commit => "commit"
    case Tree => "tree"
    case Blob => "blob"
  }

  lemma DecimalIsAscii(n: nat)
    ensures IsAscii(Decimal(n)) && NUL !in Ascii(Decimal(n))
  {
    DecimalDenotes(n);
    forall i | 0 <= i < |Decimal(n)| ensures '0' <= Decimal(n)[i] <= '9' {
      assert IsDigit(Decimal(n)[i]);
    }
  }

  /** kind, length and data as git hashes them. */
  function Encoding(k: Kind, data: Bytes): Bytes {
    DecimalIsAscii(|data|);
    Ascii(KindName(k)) + [SPACE] + (Ascii(Decimal(|data|)) + [NUL] + data)
  }

  function ObjectId(sha1: Bytes -> RawId, k: Kind, data: Bytes): string {
    Hex(sha1(Encoding(k, data)))
  }

  /** The encoding is unambiguous: no two objects are hashed from the same bytes. */
  lemma EncodingInjective(k: Kind, data: Bytes, l: Kind, other: Bytes)
    requires Encoding(k, data) == Encoding(l, other)
    ensures k == l && data == other
  {
    var p, q := Ascii(KindName(k)), Ascii(KindName(l));
    assert SPACE !in p && SPACE !in q;
    DecimalIsAscii(|data|);
    DecimalIsAscii(|other|);
    var r, s := Ascii(Decimal(|data|)), Ascii(Decimal(|other|));
    CutUnique(p, q, SPACE, r + [NUL] + data, s + [NUL] + other);
    AsciiInjective(KindName(k), KindName(l));
    CutUnique(r, s, NUL, data, other);
  }

  lemma HeaderCut(kind: Bytes, digits: Bytes, data: Bytes)
    requires NUL !in kind && SPACE !in kind && NUL !in digits
    ensures var e := kind + [SPACE] + (digits + [NUL] + data); var space, nul := Find(e, SPACE), Find(e, NUL);
            space < nul < |e| && e[..space] == kind && e[space + 1..nul] == digits && e[nul + 1..] == data
  {
    var e := kind + [SPACE] + (digits + [NUL] + data);
    FindSkips(kind, SPACE, digits + [NUL] + data);
    var header := kind + [SPACE] + digits;
    assert e == header + [NUL] + data;
    FindSkips(header, NUL, data);
    hide Find;
    assert e[..|kind|] == kind && e[|kind| + 1..|header|] == digits && e[|header| + 1..] == data;
  }

  /** An encoding describes itself: the kind's name, a space, the decimal length, a NUL, and the data. */
  lemma EncodingDescribesItself(k: Kind, data: Bytes) returns (digits: string)
    ensures digits != "" && AllDigits(digits) && DigitsValue(digits) == |data| && IsAscii(digits)
    ensures var e := Encoding(k, data); var space, nul := Find(e, 32), Find(e, 0);
            space < nul < |e| && e[nul + 1..] == data && e[space + 1..nul] == Ascii(digits) &&
            e[..space] == Ascii(if k == Commit then "commit" else if k == Tree then "tree" else "blob")
  {
    digits := Decimal(|data|);
    DecimalIsAscii(|data|);
    DecimalDenotes(|data|);
    var kind := Ascii(KindName(k));
    assert NUL !in kind && SPACE !in kind;
    hide Find, Decimal;
    HeaderCut(kind, Ascii(digits), data);
  }

  /** Two different byte strings with one SHA-1 value. */
  predicate Collide(sha1: Bytes -> RawId, a: Bytes, b: Bytes) {
    a != b && sha1(a) == sha1(b)
  }

  /** Equal ids name equal objects, unless SHA-1 collides on these very objects. */
  lemma ObjectIdNames(sha1: Bytes -> RawId, k: Kind, data: Bytes, l: Kind, other: Bytes)
    ensures ObjectId(sha1, k, data) == ObjectId(sha1, l, other) <==>
            (k == l && data == other) || Collide(sha1, Encoding(k, data), Encoding(l, other))
  {
    if ObjectId(sha1, k, data) != ObjectId(sha1, l, other) {
      return;
    }
    HexInjective(sha1(Encoding(k, data)), sha1(Encoding(l, other)));
    if Encoding(k, data) == Encoding(l, other) {
      EncodingInjective(k, data, l, other);
    }
  }

  // ----- trees --------------------------------------------------------------------------

  datatype Entry = Entry(mode: Bytes, name: Bytes, id: RawId)

  datatype ProofError =
    | InvalidGitTree
    | ManifestNotInTree
    | CommitObjectMismatch
    | MissingCommitTree
    | InvalidTreeChain
    | TreeObjectMismatch
    | CommittedManifestMismatch
    | InvalidBase64
    | MalformedProof
    | ObjectNotFound

  predicate EntryShape(e: Entry) {
    NUL !in e.mode && SPACE !in e.mode && NUL !in e.name
  }

  function NameSet(es: seq<Entry>): set<Bytes> {
    set e | e in es :: e.name
  }

  predicate ValidEntries(es: seq<Entry>) {
    (forall e | e in es :: EntryShape(e)) &&
    forall i, j | 0 <= i < j < |es| :: es[i].name != es[j].name
  }

  function EncodeEntry(e: Entry): Bytes {
    e.mode + [SPACE] + e.name + [NUL] + e.id
  }

  function EncodeTree(es: seq<Entry>): Bytes {
    if es == [] then [] else EncodeEntry(es[0]) + EncodeTree(es[1..])
  }

  /** Cuts the first entry off a non-empty tree. */
  function CutEntry(tree: Bytes): (r: Option<(Entry, Bytes)>)
    ensures r.Some? ==> |r.value.1| < |tree|
  {
    var n := Find(tree, NUL);
    if n == |tree| then None
    else
      var header, rest := tree[..n], tree[n + 1..];
      var m := Find(header, SPACE);
      if m == |header| || |rest| < 20 then None
      else Some((Entry(header[..m], header[m + 1..], rest[..20]), rest[20..]))
  }

  /** The entries of a tree, in order; names in seen count as already used. */
  function ParseTree(tree: Bytes, seen: set<Bytes>): Result<seq<Entry>, ProofError> {
    if tree == [] then Ok([])
    else
      var cut := CutEntry(tree);
      if cut.None? || cut.value.0.name in seen then Err(InvalidGitTree)
      else
        var rest :- ParseTree(cut.value.1, seen + {cut.value.0.name});
        Ok([cut.value.0] + rest)
  }

  lemma CutUndoesEncode(e: Entry, rest: Bytes)
    requires EntryShape(e)
    ensures CutEntry(EncodeEntry(e) + rest) == Some((e, rest))
  {
    var header := e.mode + [SPACE] + e.name;
    var tree := EncodeEntry(e) + rest;
    assert tree == header + [NUL] + (e.id + rest);
    FindSkips(header, NUL, e.id + rest);
    FindSkips(e.mode, SPACE, e.name);
    assert tree[..|header|] == header && tree[|header| + 1..] == e.id + rest;
    assert header[..|e.mode|] == e.mode && header[|e.mode| + 1..] == e.name;
    assert (e.id + rest)[..20] == e.id && (e.id + rest)[20..] == rest;
  }

  lemma EncodeUndoesCut(tree: Bytes)
    requires CutEntry(tree).Some?
    ensures var (e, rest) := CutEntry(tree).value; EntryShape(e) && tree == EncodeEntry(e) + rest
  {
    var n := Find(tree, NUL);
    var header, after := tree[..n], tree[n + 1..];
    var m := Find(header, SPACE);
    assert header == header[..m] + [SPACE] + header[m + 1..];
    assert tree == header + [NUL] + after;
    assert after == after[..20] + after[20..];
    assert NUL !in header[..m] && NUL !in header[m + 1..];
  }

  lemma HeadNameIsNew(es: seq<Entry>)
    requires ValidEntries(es) && es != []
    ensures ValidEntries(es[1..]) && EntryShape(es[0])
    ensures es[0].name !in NameSet(es[1..]) && NameSet(es) == {es[0].name} + NameSet(es[1..])
  {
    assert es == [es[0]] + es[1..];
    forall e | e in es[1..] ensures e.name != es[0].name {
      var i :| 0 <= i < |es[1..]| && es[1..][i] == e;
      assert es[i + 1] == e;
    }
  }

  lemma ParseOneEncoded(e: Entry, rest: Bytes, seen: set<Bytes>)
    requires EntryShape(e) && e.name !in seen && ParseTree(rest, seen + {e.name}).Ok?
    ensures ParseTree(EncodeEntry(e) + rest, seen) == Ok([e] + ParseTree(rest, seen + {e.name}).value)
  {
    CutUndoesEncode(e, rest);
    assert |EncodeEntry(e) + rest| > 0;
  }

  lemma {:induction false} ParseUndoesEncode(es: seq<Entry>, seen: set<Bytes>)
    requires ValidEntries(es) && NameSet(es) !! seen
    ensures ParseTree(EncodeTree(es), seen) == Ok(es)
  {
    if es != [] {
      HeadNameIsNew(es);
      assert es[0].name in NameSet(es);
      ParseUndoesEncode(es[1..], seen + {es[0].name});
      ParseOneEncoded(es[0], EncodeTree(es[1..]), seen);
      assert es == [es[0]] + es[1..];
    }
  }

  lemma {:induction false} EncodeUndoesParse(tree: Bytes, seen: set<Bytes>)
    requires ParseTree(tree, seen).Ok?
    ensures var es := ParseTree(tree, seen).value;
            ValidEntries(es) && NameSet(es) !! seen && tree == EncodeTree(es)
  {
    if tree != [] {
      EncodeUndoesCut(tree);
      var (e, rest) := CutEntry(tree).value;
      EncodeUndoesParse(rest, seen + {e.name});
      var tail := ParseTree(rest, seen + {e.name}).value;
      var es := [e] + tail;
      assert es[1..] == tail;
      assert NameSet(es) == {e.name} + NameSet(tail);
      forall i, j | 0 <= i < j < |es| ensures es[i].name != es[j].name {
        assert es[j] == tail[j - 1];
        if i == 0 { assert es[j].name in NameSet(tail); } else { assert es[i] == tail[i - 1]; }
      }
    }
  }

  /** The parser accepts exactly the encodings of entry lists with distinct names, and inverts them. */
  lemma TreeRoundTrip(tree: Bytes, es: seq<Entry>)
    ensures ParseTree(tree, {}) == Ok(es) <==> ValidEntries(es) && tree == EncodeTree(es)
  {
    if ParseTree(tree, {}) == Ok(es) {
      EncodeUndoesParse(tree, {});
    }
    if ValidEntries(es) && tree == EncodeTree(es) {
      ParseUndoesEncode(es, {});
    }
  }

  // ----- looking up a child ---------------------------------------------------------------

  /** The entry of that name, if any. */
  function Named(es: seq<Entry>, name: Bytes): (r: Option<Entry>)
    ensures r.Some? ==> r.value in es && r.value.name == name
    ensures r.None? ==> name !in NameSet(es)
  {
    if es == [] then None
    else if es[0].name == name then Some(es[0])
    else
      assert es == [es[0]] + es[1..];
      Named(es[1..], name)
  }

  function ChildOf(tree: Bytes, name: Bytes, mode: Bytes): Result<string, ProofError> {
    var es :- ParseTree(tree, {});
    var e := Named(es, name);
    if e.None? || e.value.mode != mode then Err(ManifestNotInTree) else Ok(Hex(e.value.id))
  }

  /** In an encoded tree, exactly the named entry with the asked mode is found; anything else is refused. */
  lemma ChildOfEncoded(es: seq<Entry>, name: Bytes, mode: Bytes)
    requires ValidEntries(es)
    ensures forall e | e in es && e.name == name ::
              ChildOf(EncodeTree(es), name, mode) == if e.mode == mode then Ok(Hex(e.id)) else Err(ManifestNotInTree)
    ensures name !in NameSet(es) ==> ChildOf(EncodeTree(es), name, mode) == Err(ManifestNotInTree)
  {
    ParseUndoesEncode(es, {});
    forall e | e in es && e.name == name ensures Named(es, name) == Some(e) {
      assert name in NameSet(es);
    }
  }

  /** A tree of one file, byte for byte: mode, space, name, NUL, and the raw id whatever its bytes. */
  lemma OneFileTree(id: RawId)
    ensures ChildOf(Ascii("100644 a.json") + [0] + id, Ascii("a.json"), Ascii("100644")) == Ok(Hex(id))
  {
    var e := Entry(Ascii("100644"), Ascii("a.json"), id);
    assert Ascii("100644 a.json") + [0] + id == EncodeEntry(e) + EncodeTree([]);
    assert [e][1..] == [];
    ChildOfEncoded([e], Ascii("a.json"), Ascii("100644"));
  }

  /** A child is found only in a well-formed tree that holds it. */
  lemma ChildOfSound(tree: Bytes, name: Bytes, mode: Bytes)
    ensures ChildOf(tree, name, mode).Ok? <==>
            exists es: seq<Entry>, e: Entry :: ValidEntries(es) && tree == EncodeTree(es) && e in es && e.name == name && e.mode == mode
  {
    if ChildOf(tree, name, mode).Ok? {
      EncodeUndoesParse(tree, {});
      var es := ParseTree(tree, {}).value;
      var e := Named(es, name).value;
      assert ValidEntries(es) && tree == EncodeTree(es) && e in es && e.name == name && e.mode == mode;
    }
    if es: seq<Entry>, e: Entry :| ValidEntries(es) && tree == EncodeTree(es) && e in es && e.name == name && e.mode == mode {
      ChildOfEncoded(es, name, mode);
    }
  }

  lemma {:induction false} NamedAppend(es: seq<Entry>, fs: seq<Entry>, name: Bytes)
    ensures Named(es + fs, name) == if Named(es, name).Some? then Named(es, name) else Named(fs, name)
  {
    if es == [] {
      assert es + fs == fs;
    } else {
      assert (es + fs)[1..] == es[1..] + fs;
      NamedAppend(es[1..], fs, name);
    }
  }

  /** The dictionary holds, under each name, mode and hexadecimal id of the entry of that name. */
  ghost predicate Holds(entries: map<Bytes, (Bytes, string)>, done: seq<Entry>) {
    forall n :: (n in entries <==> Named(done, n).Some?) &&
                (n in entries ==> entries[n] == (Named(done, n).value.mode, Hex(Named(done, n).value.id)))
  }

  lemma HoldsOneMore(entries: map<Bytes, (Bytes, string)>, done: seq<Entry>, e: Entry)
    requires Holds(entries, done) && e.name !in entries
    ensures Holds(entries[e.name := (e.mode, Hex(e.id))], done + [e])
  {
    forall n ensures Named(done + [e], n) ==
                     if Named(done, n).Some? then Named(done, n) else if n == e.name then Some(e) else None
    {
      NamedAppend(done, [e], n);
    }
  }

  /** Parsing tree amounts to having parsed done and parsing what is left. */
  ghost predicate Resumes(tree: Bytes, done: seq<Entry>, rest: Bytes, seen: set<Bytes>) {
    ParseTree(tree, {}) ==
    if ParseTree(rest, seen).Ok? then Ok(done + ParseTree(rest, seen).value) else Err(InvalidGitTree)
  }

  lemma ResumesOneMore(tree: Bytes, done: seq<Entry>, rest: Bytes, seen: set<Bytes>, e: Entry, after: Bytes)
    requires Resumes(tree, done, rest, seen) && rest != []
    requires CutEntry(rest) == Some((e, after)) && e.name !in seen
    ensures Resumes(tree, done + [e], after, seen + {e.name})
  {
    var tail := ParseTree(after, seen + {e.name});
    if tail.Ok? {
      assert done + ([e] + tail.value) == done + [e] + tail.value;
    } else {
      OnlyInvalidTree(after, seen + {e.name});
    }
  }

  lemma {:induction false} OnlyInvalidTree(tree: Bytes, seen: set<Bytes>)
    ensures ParseTree(tree, seen).Err? ==> ParseTree(tree, seen).error == InvalidGitTree
  {
    if tree != [] && CutEntry(tree).Some? {
      OnlyInvalidTree(CutEntry(tree).value.1, seen + {CutEntry(tree).value.0.name});
    }
  }

  /** Where the parser's loop stands: a dictionary of what is done, and the bytes still to read. */
  ghost predicate Parsing(tree: Bytes, done: seq<Entry>, rest: Bytes, entries: map<Bytes, (Bytes, string)>) {
    Resumes(tree, done, rest, entries.Keys) && Holds(entries, done)
  }

  lemma ParsingStarts(tree: Bytes)
    ensures Parsing(tree, [], tree, map[])
  {
    OnlyInvalidTree(tree, {});
    var entries: map<Bytes, (Bytes, string)> := map[];
    assert entries.Keys == {};
    if ParseTree(tree, {}).Ok? {
      assert [] + ParseTree(tree, {}).value == ParseTree(tree, {}).value;
    }
  }

  /** The bytes at the front hold no entry, or one whose name is taken: the whole tree is invalid. */
  lemma ParsingFails(tree: Bytes, done: seq<Entry>, rest: Bytes, entries: map<Bytes, (Bytes, string)>)
    requires Parsing(tree, done, rest, entries) && rest != []
    requires CutEntry(rest).None? || CutEntry(rest).value.0.name in entries
    ensures ParseTree(tree, {}) == Err(InvalidGitTree)
  {
  }

  lemma ParsingOneMore(tree: Bytes, done: seq<Entry>, rest: Bytes, entries: map<Bytes, (Bytes, string)>,
                       e: Entry, after: Bytes)
    requires Parsing(tree, done, rest, entries) && rest != []
    requires CutEntry(rest) == Some((e, after)) && e.name !in entries
    ensures Parsing(tree, done + [e], after, entries[e.name := (e.mode, Hex(e.id))])
  {
    ResumesOneMore(tree, done, rest, entries.Keys, e, after);
    HoldsOneMore(entries, done, e);
    assert entries[e.name := (e.mode, Hex(e.id))].Keys == entries.Keys + {e.name};
  }

  /** With nothing left to read, the dictionary decides what is found. */
  lemma ParsingEnds(tree: Bytes, done: seq<Entry>, entries: map<Bytes, (Bytes, string)>, name: Bytes, mode: Bytes)
    requires Parsing(tree, done, [], entries)
    ensures ChildOf(tree, name, mode) ==
            if name !in entries || entries[name].0 != mode then Err(ManifestNotInTree) else Ok(entries[name].1)
  {
    assert done + [] == done;
  }

  /** The parser's loop, filling a dictionary entry by entry. */
  method Child(tree: Bytes, name: Bytes, mode: Bytes) returns (r: Result<string, ProofError>)
    ensures r == ChildOf(tree, name, mode)
  {
    hide Parsing, ParseTree, Named, Hex;
    var rest := tree;
    var entries: map<Bytes, (Bytes, string)> := map[];
    ghost var done: seq<Entry> := [];
    ParsingStarts(tree);
    while rest != []
      invariant Parsing(tree, done, rest, entries)
      decreases |rest|
    {
      ghost var before := rest;
      var cut := Find(rest, NUL);
      if cut == |rest| {
        ParsingFails(tree, done, before, entries);
        return Err(InvalidGitTree);
      }
      var header := rest[..cut];
      var gap := Find(header, SPACE);
      if gap == |header| {
        ParsingFails(tree, done, before, entries);
        return Err(InvalidGitTree);
      }
      var entryMode, entryName := header[..gap], header[gap + 1..];
      rest := rest[cut + 1..];
      if |rest| < 20 || entryName in entries {
        ParsingFails(tree, done, before, entries);
        return Err(InvalidGitTree);
      }
      ghost var e := Entry(entryMode, entryName, rest[..20]);
      ParsingOneMore(tree, done, before, entries, e, rest[20..]);
      entries := entries[entryName := (entryMode, Hex(rest[..20]))];
      rest := rest[20..];
      done := done + [e];
    }
    ParsingEnds(tree, done, entries, name, mode);
    if name !in entries || entries[name].0 != mode {
      return Err(ManifestNotInTree);
    }
    r := Ok(entries[name].1);
  }
}
