/** Batched gRPC file ingest: local decode errors, one batch for the rest, and the order-restoring splice. */
module Ingest {
  import opened Wrappers

  datatype IngestFile = IngestFile(filename: string, mediaType: string, contentBase64: string,
                                   sha256: Option<string>, collections: Option<seq<string>>)

  /** What goes on the wire: raw bytes, and proto3 defaults for what is absent. */
  datatype WireFile = WireFile(filename: string, mediaType: string, content: seq<int>,
                               sha256: string, collections: seq<string>)

  datatype IngestResult = IngestResult(filename: string, sourceId: Option<string>, existed: bool,
                                       boundTo: seq<string>, error: Option<string>)

  datatype IngestError = InvalidInput | MissingResult(filename: string) | SurplusResults | CallFailed

  /** Base64 decoding; None is a format error. */
  type Decoder = string -> Option<seq<int>>

  /** The empty list reads as absent on the wire, so it is refused before anything is sent. */
  predicate Acceptable(file: IngestFile) {
    file.collections != Some([])
  }

  function Encoded(decode: Decoder, file: IngestFile): Option<WireFile> {
    var content := decode(file.contentBase64);
    if content.None? then None
    else Some(WireFile(file.filename, file.mediaType, content.value,
                       if file.sha256.Some? then file.sha256.value else "",
                       if file.collections.Some? then file.collections.value else []))
  }

  /** What a proto3 reader makes of the wire form: an empty digest and an empty list read as absent. */
  function FromWire(w: WireFile, contentBase64: string): IngestFile {
    IngestFile(w.filename, w.mediaType, contentBase64, if w.sha256 == "" then None else Some(w.sha256),
               if w.collections == [] then None else Some(w.collections))
  }

  /** The wire carries the decoded content, and a reader recovers every other member of the file exactly when
      its digest is not the empty text and its collections are not the empty list, the one that is refused. */
  lemma WireCarries(decode: Decoder, file: IngestFile)
    ensures Encoded(decode, file).Some? <==> decode(file.contentBase64).Some?
    ensures Encoded(decode, file).Some? ==>
              Some(Encoded(decode, file).value.content) == decode(file.contentBase64) &&
              (FromWire(Encoded(decode, file).value, file.contentBase64) == file <==>
                file.sha256 != Some("") && Acceptable(file))
  {
  }

  /** A file that cannot be decoded gives its own error result, under its own name, bound to nothing. */
  lemma LocalErrorIs(decode: Decoder, file: IngestFile)
    ensures ErrorOf(decode, file).Some? <==> decode(file.contentBase64).None?
    ensures ErrorOf(decode, file).Some? ==>
              var r := ErrorOf(decode, file).value;
              r.filename == file.filename && r.error.Some? && r.sourceId.None? && !r.existed && r.boundTo == []
  {
  }

  function LocalError(file: IngestFile): IngestResult {
    IngestResult(file.filename, None, false, [], Some("content_base64 is not valid base64"))
  }

  /** The decode error of a file, if it has one. */
  function ErrorOf(decode: Decoder, file: IngestFile): Option<IngestResult> {
    if Encoded(decode, file).None? then Some(LocalError(file)) else None
  }

  function ErrorsOf(decode: Decoder, files: seq<IngestFile>): seq<Option<IngestResult>> {
    seq(|files|, i requires 0 <= i < |files| => ErrorOf(decode, files[i]))
  }

  /** The files that go to the server, in order. */
  function SentFiles(decode: Decoder, files: seq<IngestFile>): seq<WireFile> {
    if files == [] then []
    else
      var rest := SentFiles(decode, files[1..]);
      var first := Encoded(decode, files[0]);
      if first.Some? then [first.value] + rest else rest
  }

  // ----- the splice ------------------------------------------------------------

  /** Server results from next on, put into the slots from i on that have no local error. */
  function Spliced(files: seq<IngestFile>, localErrors: seq<Option<IngestResult>>, serverResults: seq<IngestResult>,
                   i: nat, next: nat): Result<seq<IngestResult>, IngestError>
    requires |files| == |localErrors| && i <= |files| && next <= |serverResults|
    decreases |files| - i
  {
    if i == |files| then (if next < |serverResults| then Err(SurplusResults) else Ok([]))
    else if localErrors[i].Some? then
      var rest :- Spliced(files, localErrors, serverResults, i + 1, next);
      Ok([localErrors[i].value] + rest)
    else if next == |serverResults| then Err(MissingResult(files[i].filename))
    else
      var rest :- Spliced(files, localErrors, serverResults, i + 1, next + 1);
      Ok([serverResults[next]] + rest)
  }

  method SpliceIngestResults(files: seq<IngestFile>, localErrors: seq<Option<IngestResult>>,
                             serverResults: seq<IngestResult>) returns (r: Result<seq<IngestResult>, IngestError>)
    requires |files| == |localErrors|
    ensures r == Spliced(files, localErrors, serverResults, 0, 0)
  {
    var results: seq<IngestResult> := [];
    var next := 0;
    ghost var all := Spliced(files, localErrors, serverResults, 0, 0);
    assert all.Ok? ==> [] + all.value == all.value;
    for i := 0 to |files|
      invariant 0 <= next <= |serverResults|
      invariant var rest := Spliced(files, localErrors, serverResults, i, next);
                all == if rest.Ok? then Ok(results + rest.value) else rest
    {
      ghost var before := next;
      var taken;
      if localErrors[i].Some? {
        taken := localErrors[i].value;
      } else {
        if next == |serverResults| {
          return Err(MissingResult(files[i].filename));
        }
        taken := serverResults[next];
        next := next + 1;
      }
      ghost var rest := Spliced(files, localErrors, serverResults, i + 1, next);
      assert rest.Ok? ==> results + ([taken] + rest.value) == results + [taken] + rest.value;
      results := results + [taken];
    }
    assert results + [] == results;
    if next < |serverResults| {
      return Err(SurplusResults);
    }
    r := Ok(results);
  }

  // ----- the batch ---------------------------------------------------------------

  /** The server's answer to one batch, which it is sent at most once. */
  type BatchServer = seq<WireFile> -> Result<seq<IngestResult>, IngestError>

  /** Decode every file, send what decodes in one batch, splice. */
  method IngestFiles(decode: Decoder, server: BatchServer, files: seq<IngestFile>)
    returns (r: Result<seq<IngestResult>, IngestError>)
    ensures r == Ingested(decode, server, files)
  {
    var localErrors: seq<Option<IngestResult>> := [];
    var sent: seq<WireFile> := [];
    for i := 0 to |files|
      invariant forall j | 0 <= j < i :: Acceptable(files[j])
      invariant localErrors == ErrorsOf(decode, files[..i])
      invariant sent == SentFiles(decode, files[..i])
    {
      if !Acceptable(files[i]) {
        return Err(InvalidInput);
      }
      SentSnoc(decode, files[..i], files[i]);
      assert files[..i + 1] == files[..i] + [files[i]];
      var wire := Encoded(decode, files[i]);
      localErrors := localErrors + [if wire.None? then Some(LocalError(files[i])) else None];
      if wire.Some? {
        sent := sent + [wire.value];
      }
    }
    assert files[..|files|] == files;
    var serverResults: seq<IngestResult> := [];
    if sent != [] {
      var answer := server(sent);
      if answer.Err? {
        return Err(answer.error);
      }
      serverResults := answer.value;
    }
    r := SpliceIngestResults(files, localErrors, serverResults);
  }

  function Ingested(decode: Decoder, server: BatchServer, files: seq<IngestFile>)
    : Result<seq<IngestResult>, IngestError>
  {
    if exists f | f in files :: !Acceptable(f) then Err(InvalidInput)
    else
      var sent := SentFiles(decode, files);
      var answer := if sent == [] then Ok([]) else server(sent);
      if answer.Err? then Err(answer.error)
      else Spliced(files, ErrorsOf(decode, files), answer.value, 0, 0)
  }

  lemma {:induction false} SentSnoc(decode: Decoder, files: seq<IngestFile>, f: IngestFile)
    ensures SentFiles(decode, files + [f]) ==
            SentFiles(decode, files) + if Encoded(decode, f).Some? then [Encoded(decode, f).value] else []
  {
    if files == [] {
      assert files + [f] == [f] && [f][1..] == [];
    } else {
      assert (files + [f])[1..] == files[1..] + [f];
      SentSnoc(decode, files[1..], f);
    }
  }

  // ----- per-item meaning ----------------------------------------------------------

  /** The outcome of one file on its own: its decode error, or the server's outcome for it. */
  function ItemOutcome(decode: Decoder, outcome: WireFile -> IngestResult, file: IngestFile): IngestResult {
    var wire := Encoded(decode, file);
    if wire.None? then LocalError(file) else outcome(wire.value)
  }

  function Outcomes(outcome: WireFile -> IngestResult, sent: seq<WireFile>): seq<IngestResult> {
    seq(|sent|, i requires 0 <= i < |sent| => outcome(sent[i]))
  }

  lemma SentUnfold(decode: Decoder, files: seq<IngestFile>, i: nat)
    requires i <= |files|
    ensures i == |files| ==> SentFiles(decode, files[i..]) == []
    ensures i < |files| ==>
              SentFiles(decode, files[i..]) ==
              if Encoded(decode, files[i]).None? then SentFiles(decode, files[i + 1..])
              else [Encoded(decode, files[i]).value] + SentFiles(decode, files[i + 1..])
  {
    if i < |files| {
      assert files[i..][1..] == files[i + 1..];
    }
  }

  /** A splice from file i on succeeds exactly when the counts agree. */
  lemma {:induction false} SpliceCounts(decode: Decoder, files: seq<IngestFile>, serverResults: seq<IngestResult>,
                                        i: nat, next: nat)
    requires i <= |files| && next <= |serverResults|
    ensures var r := Spliced(files, ErrorsOf(decode, files), serverResults, i, next);
            (r.Ok? <==> |SentFiles(decode, files[i..])| == |serverResults| - next) &&
            (r.Ok? ==> |r.value| == |files| - i)
    decreases |files| - i
  {
    hide Encoded, SentFiles, LocalError;
    SentUnfold(decode, files, i);
    if i < |files| {
      if Encoded(decode, files[i]).None? {
        SpliceCounts(decode, files, serverResults, i + 1, next);
      } else if next < |serverResults| {
        SpliceCounts(decode, files, serverResults, i + 1, next + 1);
      }
    }
  }

  /** The kth sent file's result is the server's outcome for it. */
  ghost predicate InOrder(outcome: WireFile -> IngestResult, sent: seq<WireFile>, results: seq<IngestResult>, next: nat) {
    |sent| == |results| - next && forall k | 0 <= k < |sent| :: results[next + k] == outcome(sent[k])
  }

  lemma InOrderTail(outcome: WireFile -> IngestResult, sent: seq<WireFile>, results: seq<IngestResult>, next: nat)
    requires InOrder(outcome, sent, results, next) && sent != []
    ensures results[next] == outcome(sent[0]) && InOrder(outcome, sent[1..], results, next + 1)
  {
    assert results[next + 0] == outcome(sent[0]);
    forall k | 0 <= k < |sent| - 1 ensures results[next + 1 + k] == outcome(sent[1..][k]) {
      assert results[next + (k + 1)] == outcome(sent[k + 1]);
    }
  }

  /** One step of the splice: a local error, or the next server result. */
  lemma SpliceUnfold(decode: Decoder, files: seq<IngestFile>, serverResults: seq<IngestResult>, i: nat, next: nat)
    requires i < |files| && next <= |serverResults|
    ensures Encoded(decode, files[i]).None? ==>
              Spliced(files, ErrorsOf(decode, files), serverResults, i, next) ==
              var rest := Spliced(files, ErrorsOf(decode, files), serverResults, i + 1, next);
              if rest.Ok? then Ok([LocalError(files[i])] + rest.value) else rest
    ensures Encoded(decode, files[i]).Some? && next < |serverResults| ==>
              Spliced(files, ErrorsOf(decode, files), serverResults, i, next) ==
              var rest := Spliced(files, ErrorsOf(decode, files), serverResults, i + 1, next + 1);
              if rest.Ok? then Ok([serverResults[next]] + rest.value) else rest
  {
    hide Encoded, LocalError;
  }

  /** A splice of in-order results pairs every file with its own outcome. */
  lemma {:induction false} SplicePairs(decode: Decoder, outcome: WireFile -> IngestResult, files: seq<IngestFile>,
                                       serverResults: seq<IngestResult>, i: nat, next: nat)
    requires i <= |files| && next <= |serverResults|
    requires InOrder(outcome, SentFiles(decode, files[i..]), serverResults, next)
    ensures var r := Spliced(files, ErrorsOf(decode, files), serverResults, i, next);
            r.Ok? && |r.value| == |files| - i &&
            forall k | i <= k < |files| :: r.value[k - i] == ItemOutcome(decode, outcome, files[k])
    decreases |files| - i
  {
    hide Encoded, SentFiles, LocalError, Spliced, ErrorOf;
    SentUnfold(decode, files, i);
    if i < |files| {
      SpliceUnfold(decode, files, serverResults, i, next);
      var sent, rest := SentFiles(decode, files[i..]), SentFiles(decode, files[i + 1..]);
      var tail: seq<IngestResult>;
      if Encoded(decode, files[i]).None? {
        SplicePairs(decode, outcome, files, serverResults, i + 1, next);
        tail := Spliced(files, ErrorsOf(decode, files), serverResults, i + 1, next).value;
      } else {
        InOrderTail(outcome, sent, serverResults, next);
        assert sent[1..] == rest && sent[0] == Encoded(decode, files[i]).value;
        SplicePairs(decode, outcome, files, serverResults, i + 1, next + 1);
        tail := Spliced(files, ErrorsOf(decode, files), serverResults, i + 1, next + 1).value;
      }
      var first := ItemOutcome(decode, outcome, files[i]);
      hide ItemOutcome;
      assert Spliced(files, ErrorsOf(decode, files), serverResults, i, next) == Ok([first] + tail);
      forall k | i < k < |files| ensures ([first] + tail)[k - i] == ItemOutcome(decode, outcome, files[k]) {
        assert ([first] + tail)[k - i] == tail[k - (i + 1)];
      }
    } else {
      SpliceCounts(decode, files, serverResults, i, next);
    }
  }

  /** When the server answers the files it was sent, in order, the batch means each file ingested on its own. */
  lemma BatchRefinesItems(decode: Decoder, server: BatchServer, outcome: WireFile -> IngestResult, files: seq<IngestFile>)
    requires forall f | f in files :: Acceptable(f)
    requires SentFiles(decode, files) != [] ==>
               server(SentFiles(decode, files)) == Ok(Outcomes(outcome, SentFiles(decode, files)))
    ensures var r := Ingested(decode, server, files);
            r.Ok? && |r.value| == |files| &&
            forall i | 0 <= i < |files| :: r.value[i] == ItemOutcome(decode, outcome, files[i])
  {
    hide SentFiles, Spliced, ItemOutcome, ErrorsOf;
    var sent := SentFiles(decode, files);
    var answers := if sent == [] then [] else Outcomes(outcome, sent);
    assert files[0..] == files;
    SplicePairs(decode, outcome, files, answers, 0, 0);
  }

  /** A batch answered with one result too few or too many is an error, never a mis-pairing. */
  lemma CountMismatchIsError(decode: Decoder, server: BatchServer, files: seq<IngestFile>)
    requires forall f | f in files :: Acceptable(f)
    requires SentFiles(decode, files) != [] && server(SentFiles(decode, files)).Ok?
    ensures Ingested(decode, server, files).Ok? <==>
              |server(SentFiles(decode, files)).value| == |SentFiles(decode, files)|
  {
    assert files[0..] == files;
    SpliceCounts(decode, files, server(SentFiles(decode, files)).value, 0, 0);
  }
}
