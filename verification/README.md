# Munarium: verified models of its self-contained logic

This project models the parts of Munarium whose correctness is decided by a few hundred lines each, and
proves what those parts are for. Check everything with `dafny verify dfyconfig.toml`.

- **Content identity.** `Utf16`, `Canonical`, `CanonicalReading` and `CanonicalIdentity` model the artifact@1
  canonical printer (RFC 8785 without floats: string escapes of section 3.2.2.2, member order of section
  3.2.3) over strings of Unicode scalar values, together with a strict reader that undoes it. Equal text is
  equal document, both ways. `Identifiers` builds on it: which identifier moves under which edit.
- **Inclusion proofs.** `GitObjects` and `InclusionProof` model git object ids, the tree parser, the proof
  checker and the capture of a proof from a repository. SHA-1 is any function; every result names the
  collision that would defeat it among the very objects at hand.
- **Replay-safe writes.** `Errors` decodes failures on both transports. `WriteLoop` is the retry engine inside
  the head-conflict loop, as methods on a connection, proved to follow one client automaton. `Fates` says what
  can become of a proposal (never sent, shed, conflicted, refused, executed with the reply lost, under way,
  completed) and which answers each fate can produce, without reference to the retry rule.
  `WriteLoopSafety` proves what holds of every conversation, `Lineage` what holds of every interleaving of any
  number of loops and other writers over a network that delays, loses and answers.
- **Sealed evaluation.** `Notes`, `Responder`, `Grader`, `AnswerKey` and `PolicyScores` model point-in-time
  resolution, the deterministic responder, case grading and the generated answer key; `FrozenEval` the sealed
  records, grading and bundle verification; `Latency` the reports and budgets.
- **Algorithmic cores.** `Gates` (gate catalog), `Worklist` with `Closure` (dependency worklist), `Wrap` (line
  breaking), `Fields` and `Schema` (migration reader), `Ingest` (order-restoring batch splice).

`Text` and `Wrappers` hold the shared vocabulary. Code that changes state is modelled as methods with loops,
or as a class where the source keeps an object (`WriteLoop.Wire`, `Gates.GateRun`, `Identifiers.VectorRun`);
each method is tied to a specification function, and the properties are proved of that function.

What the write-loop results take from the server and the network: an acceptance is only sent for an executed
proposal, the typed `overloaded` only for one turned away before executing, the typed `head-conflict` only for
one that failed its head check, and a connect-phase failure only for a request that never left. Nothing is
assumed of any other answer.

## Model

| member | source | states |
|---|---|---|
| Canonical.QuoteString | server/contract/datastore/canonicalize.py:23-38 | the loop over the characters builds the quoted form of the string: every character replaced by its escape, in order |
| CanonicalReading.EscapeIsShortest | server/contract/datastore/canonicalize.py:20-38 | any text a JSON reader takes for exactly that one character is the printed escape or longer; this fixes the short forms, lower-case hexadecimal and unescaped rest |
| CanonicalReading.CharsReadBack | server/contract/datastore/canonicalize.py:23-38 | a reader that refuses bare control characters recovers every string from its quoted form, whatever follows |
| CanonicalReading.IntReadsBack | server/contract/datastore/canonicalize.py:55-58 | a reader that refuses leading zeros and minus zero recovers every integer, whatever non-digit follows |
| CanonicalReading.SerializeAcceptsPrintable | server/contract/datastore/canonicalize.py:48-74 | printing succeeds exactly for documents without floats, out-of-range integers, non-string keys or unsupported values, at every depth |
| CanonicalReading.IntegersPrint | server/contract/datastore/canonicalize.py:55-58 | an integer prints as its numeral exactly from -2^63 to 2^63 - 1 |
| CanonicalReading.FailureNamesCulprit | server/contract/datastore/canonicalize.py:55-74 | a failure names the path at which a value of the refused kind really stands |
| CanonicalReading.ValueReadsBack | server/contract/datastore/canonicalize.py:48-74 | reading the printed text of any printable document gives its JSON value and leaves exactly what followed it |
| CanonicalReading.SortedByCodeUnits | server/contract/datastore/canonicalize.py:72 | members are emitted in strictly increasing order of the UTF-16 code units of their names |
| CanonicalReading.PrintedAscending | server/contract/datastore/canonicalize.py:72 | of two printed members the earlier has the smaller name, compared by UTF-16 code units: ascending, not descending |
| CanonicalReading.SortingKeepsMeaning | server/contract/datastore/canonicalize.py:72-73 | sorting loses, adds and changes no member |
| CanonicalIdentity.CanonicalTextReads | server/contract/datastore/canonicalize.py:48-78 | the canonical text of a document reads back as its JSON value with nothing left over |
| CanonicalIdentity.MeaningDeterminesText | server/contract/datastore/canonicalize.py:48-78 | two documents with one JSON value print alike, wherever they stand |
| CanonicalIdentity.SameDocumentIsSameMeaning | server/contract/datastore/canonicalize.py:48-75 | equality member by member and item by item is equality of JSON values |
| CanonicalIdentity.CanonicalTextIsIdentity | server/contract/datastore/canonicalize.py:48-78 | two printable documents have equal canonical text if and only if they are the same document, members compared by name at every depth |
| CanonicalIdentity.MemberOrderIsNotContent | server/contract/datastore/canonicalize.py:68-73 | permuting the members of an object leaves the text unchanged |
| CanonicalIdentity.PathIsNotContent | server/contract/datastore/canonicalize.py:48-75 | the error path never reaches the text |
| Utf16.BytesCompareAsUnits | server/contract/datastore/canonicalize.py:41-45 | comparing big-endian bytes is comparing code units |
| Utf16.KeyOrderIsTotal | server/contract/datastore/canonicalize.py:41-45 | two different names are always strictly ordered, one way only |
| Utf16.UnitsInjective | server/contract/datastore/canonicalize.py:41-45 | no two strings have the same code units, so keys never tie |
| Utf16.UnitsDecode | server/contract/datastore/canonicalize.py:41-45 | a supplementary character becomes a high and a low surrogate that give it back, any other itself |
| Utf16.AgreesWithCodePointOrder | server/contract/datastore/canonicalize.py:42-44 | on different names the order is the code-point order exactly when their first difference is not a supplementary character against one from U+E000 to U+FFFF |
| Utf16.BasicPlaneAgrees | server/contract/datastore/canonicalize.py:42-44 | without supplementary characters the two orders are the same |
| Utf16.CodePointOrderIsNotEnough | server/contract/datastore/canonicalize.py:42-44 | a pair of names on which they differ |
| Identifiers.IdsExist | server/contract/datastore/gen_vectors.py:37-46 | identifiers exist exactly when specification, plan and the manifest outside its two hash fields can be printed |
| Identifiers.EmbedSameDocument | server/contract/datastore/gen_vectors.py:39-41 | two manifests with embedded hashes are the same document exactly when the hashes and everything outside the two fields agree |
| Identifiers.EmbedHolds | server/contract/datastore/gen_vectors.py:39-41 | the embedded manifest holds the specification hash and the plan hash under their own names, and every other member as it was |
| Identifiers.IdentifierMovement | server/contract/datastore/gen_vectors.py:37-46 | each identifier stays exactly when every document it covers stays the same JSON value, unless the digest collides on the hashed texts |
| Identifiers.MovedIsTheClass | server/contract/datastore/gen_vectors.py:63-74 | the set of moved identifiers is that of the documented class of the edit and of no other; the index version never moves alone |
| Identifiers.ClassTellsIds | server/contract/datastore/gen_vectors.py:55-74 | neither, artifact and logical are exactly: no id moved, the artifact id alone moved, the index version moved |
| Identifiers.EditsStayApart | server/contract/datastore/gen_vectors.py:56-63 | each mutator edits its own document; what was left alone keeps its identifier |
| Identifiers.VectorRun.constructor | server/contract/datastore/gen_vectors.py:49-53 | a run starts from the identifiers of a hashable baseline with no case recorded |
| Identifiers.VectorRun.Case | server/contract/datastore/gen_vectors.py:55-75 | a case is recorded exactly when the edited documents hash and the claimed class is the one their contents show; otherwise nothing is recorded |
| GitObjects.EncodingInjective | scripts/preregistration.py:14-15 | kind, length and data are hashed unambiguously |
| GitObjects.EncodingDescribesItself | scripts/preregistration.py:14-15 | the encoding is the name of the kind, a space, the decimal length, a NUL and the data |
| GitObjects.ObjectIdNames | scripts/preregistration.py:14-15 | two objects have equal ids exactly when they are equal or SHA-1 collides on their encodings |
| GitObjects.HexInjective | scripts/preregistration.py:14-25 | hexadecimal ids determine the raw ones |
| GitObjects.HexDenotes | scripts/preregistration.py:15 | each byte gives two digits, the high one first |
| GitObjects.TreeRoundTrip | scripts/preregistration.py:18-26 | parsing accepts exactly the encodings of entry lists with distinct names, and returns the list, even where raw ids hold NUL or space bytes |
| GitObjects.ChildOfEncoded | scripts/preregistration.py:27-29 | the named entry with the asked mode is returned; a wrong mode or a missing name is refused |
| GitObjects.OneFileTree | scripts/preregistration.py:18-29 | a tree of one file, byte for byte, and its id, whatever bytes that holds |
| GitObjects.ChildOfSound | scripts/preregistration.py:18-29 | a child is found exactly in well-formed trees that hold it |
| GitObjects.Child | scripts/preregistration.py:18-29 | the loop that fills the dictionary returns what parsing the whole tree and looking the name up gives |
| InclusionProof.Verify | scripts/preregistration.py:32-58 | the step-by-step check decides as the specification of a checked proof does, with the same first error |
| InclusionProof.AcceptedParts | scripts/preregistration.py:32-58 | a proof is accepted exactly when it links the commit to a blob holding the manifest down the four-part path |
| InclusionProof.NoEquivocation | scripts/preregistration.py:32-58 | two proofs accepted for one commit and manifest id are the same proof of the same manifest, or two of their own objects at one place collide under SHA-1 |
| InclusionProof.AcceptedProofIsTheWalk | scripts/preregistration.py:32-94 | an accepted proof holds the very objects that walking the commit in the repository meets, or collides with one of them |
| InclusionProof.Capture | scripts/preregistration.py:61-94 | capture returns the objects of the walk when they check, and the first failure otherwise |
| InclusionProof.CaptureComplete | scripts/preregistration.py:61-94 | once the walk reaches a blob, its proof is accepted exactly when the commit names its tree in the standard way and the blob holds the manifest |
| InclusionProof.RootRead | scripts/preregistration.py:37-40 | for every id and whatever lines follow, the root is the id on the first line after the word tree |
| InclusionProof.PathIs | scripts/preregistration.py:41-53 | the path is server, conformance, results and the id with its colon replaced, as three directories and a regular file |
| InclusionProof.CaptureSucceeds | scripts/preregistration.py:61-94 | capture succeeds on every consistent repository whose commit holds the manifest at that path, and returns exactly the commit, the four trees and the blob |
| Errors.FromPartsResends | clients/dotnet/src/Ioka.Munarium.Client/Errors.Decode.cs:16-54 | of all registry slugs only overloaded builds an error that re-sends a command, and none builds a transport error |
| Errors.GrpcCommandResends | clients/dotnet/src/Ioka.Munarium.Client/Errors.Decode.cs:84-128 | over gRPC a command is re-sent exactly for the typed overloaded; no undelivered transport error is ever built |
| Errors.GrpcReadRetries | clients/dotnet/src/Ioka.Munarium.Client/Errors.Decode.cs:84-128 | over gRPC a read is retried exactly for overloaded, an unavailable peer or an expired deadline |
| Errors.RestCommandResends | clients/dotnet/src/Ioka.Munarium.Client/RestTransport.cs:121-153 | over REST a command is re-sent exactly for overloaded and for a send that failed to connect, to resolve the name, to secure the connection or to tunnel |
| Errors.RestReadRetries | clients/dotnet/src/Ioka.Munarium.Client/Errors.cs:131-148 | over REST a read is retried exactly for overloaded and for an unregistered answer of status 502, 503 or 504 |
| Errors.ConflictCarried | clients/dotnet/src/Ioka.Munarium.Client/Errors.Decode.cs:20 | a decoded conflict carries the expected and the actual head, each from its own member, or zero |
| Errors.PartsCarried | clients/dotnet/src/Ioka.Munarium.Client/Errors.Decode.cs:26-53 | shape, delay and status come from their own members |
| Errors.MissingCarried | clients/dotnet/src/Ioka.Munarium.Client/Errors.Decode.cs:28-52 | kind and id of what is missing come from their own members; a removed runbook is called a runbook |
| Errors.ClaimSlugs | clients/dotnet/src/Ioka.Munarium.Client/Errors.Decode.cs:20-26 | which slugs give conflicts, policy rejections and shape violations |
| Errors.RequestSlugs | clients/dotnet/src/Ioka.Munarium.Client/Errors.Decode.cs:28-52 | which slugs give not-found and invalid-input errors |
| Errors.IdentitySlugs | clients/dotnet/src/Ioka.Munarium.Client/Errors.Decode.cs:30-49 | which slugs call for new credentials |
| Errors.PermissionSlugs | clients/dotnet/src/Ioka.Munarium.Client/Errors.Decode.cs:31-51 | which slugs mean a missing permission |
| Errors.LoadSlugs | clients/dotnet/src/Ioka.Munarium.Client/Errors.Decode.cs:27-33 | which slugs give replay, rate and load errors |
| Errors.ServerSlugs | clients/dotnet/src/Ioka.Munarium.Client/Errors.Decode.cs:34-48 | which slugs give server-side errors |
| Errors.ServerInfoIs | clients/dotnet/src/Ioka.Munarium.Client/Errors.Decode.cs:86-105 | the server speaks through the first structured detail, and only under its own domain |
| Errors.TransportsAgree | clients/dotnet/src/Ioka.Munarium.Client/Errors.Decode.cs:56-105 | one slug decodes to one error on both transports, up to a retry delay and an HTTP status that only REST knows |
| Fates.CommandRetryIsProof | clients/dotnet/src/Ioka.Munarium.Client/MunariumClient.cs:173-188 | the retry rule accepts exactly a connection that was never made and the typed overloaded |
| Fates.ConflictsAre | clients/dotnet/src/Ioka.Munarium.Client/Errors.Decode.cs:84-115 | a head conflict is decoded exactly from the typed conflict and from a bare ABORTED |
| Fates.ConflictCarriesHead | clients/dotnet/src/Ioka.Munarium.Client/Errors.Decode.cs:16-20 | on both transports a decoded conflict carries the actual head the server told |
| Fates.ReplayRuleIsExact | clients/README.md:222-236 | what is re-sent cannot have been executed; the answers no executed request can produce are exactly those that re-send or rebuild, a bare ABORTED excepted |
| WriteLoop.Wire.constructor | clients/dotnet/src/Ioka.Munarium.Client/MunariumClient.cs:205-225 | a connection starts with nothing sent |
| WriteLoop.Wire.Send | clients/dotnet/src/Ioka.Munarium.Client/MunariumClient.cs:213-219 | one send adds one exchange to the log, answered as the environment answers at that point |
| WriteLoop.Wire.NewKey | clients/dotnet/src/Ioka.Munarium.Client/MunariumClient.cs:209-211 | keys are issued once each |
| WriteLoop.RunAsync | clients/dotnet/src/Ioka.Munarium.Client/MunariumClient.cs:205-225 | the engine re-sends one request while answers are retryable and tries remain, and stops at the first that is not |
| WriteLoop.Head | clients/dotnet/src/Ioka.Munarium.Client/GrpcTransport.cs:501-507 | reading the head takes the loop to its proposal or to the error |
| WriteLoop.Propose | clients/dotnet/src/Ioka.Munarium.Client/GrpcTransport.cs:364-371 | a proposal carries one fresh key however often it is re-sent |
| WriteLoop.ProposeClaimWithRetry | clients/dotnet/src/Ioka.Munarium.Client/MunariumClient.cs:127-151 | the nested loops terminate and their conversation is exactly that of the automaton the safety results are about |
| WriteLoopSafety.SendsAreBounded | clients/dotnet/src/Ioka.Munarium.Client/MunariumClient.cs:127-151 | at most max(1, MaxAttempts) * (max(0, ReadRetries) + 1) proposals are sent, and at most as many head reads |
| WriteLoopSafety.ConflictGoesOnAtActual | clients/dotnet/src/Ioka.Munarium.Client/MunariumClient.cs:143-148 | after a conflict that tells a head above zero, with an attempt left, the next request proposes the claim built for that head, conditional on it, under the next fresh key |
| WriteLoopSafety.NextAfterConflict | clients/dotnet/src/Ioka.Munarium.Client/MunariumClient.cs:143-148 | in every conversation the request after such a conflict is that proposal |
| WriteLoopSafety.HeadIsReadAndUsed | clients/dotnet/src/Ioka.Munarium.Client/MunariumClient.cs:132-148 | a conflict without a head makes the loop read it, and the head read is the one proposed on |
| WriteLoopSafety.RetriesAreUsed | clients/dotnet/src/Ioka.Munarium.Client/MunariumClient.cs:212-223 | against a server that is always overloaded a request is sent exactly max(0, ReadRetries) + 1 times |
| WriteLoopSafety.AttemptsAreUsed | clients/dotnet/src/Ioka.Munarium.Client/MunariumClient.cs:133-150 | against a server that always conflicts exactly max(1, MaxAttempts) claims are proposed |
| WriteLoopSafety.StepAfterExecution | clients/dotnet/src/Ioka.Munarium.Client/MunariumClient.cs:137-149 | after a proposal that may be executed the loop goes on exactly when the answer is a bare ABORTED and an attempt is left |
| WriteLoopSafety.AtMostOnce | clients/dotnet/src/Ioka.Munarium.Client/MunariumClient.cs:127-151 | in a conversation every proposal that may be executed is the last request and ends the loop, if and only if no bare ABORTED answers such a proposal with an attempt left |
| WriteLoopSafety.RestAppendsAtMostOnce | clients/dotnet/src/Ioka.Munarium.Client/MunariumClient.cs:127-151 | over REST at most one proposal of a conversation may be executed, with no condition |
| WriteLoopSafety.ReturnedWasExecuted | clients/dotnet/src/Ioka.Munarium.Client/MunariumClient.cs:140-141 | a loop returns only the sequence number its last proposal was accepted with |
| WriteLoopSafety.AtMostOnceExactly | clients/dotnet/src/Ioka.Munarium.Client/Errors.Decode.cs:102-115 | an environment keeps every conversation of a loop to one execution if and only if the loop has a single attempt or the environment never answers an executed proposal by a bare ABORTED |
| WriteLoopSafety.BareAbortedExecutesTwice | clients/dotnet/src/Ioka.Munarium.Client/Errors.Decode.cs:102-115 | the conversation in which two proposals are executed |
| WriteLoopSafety.KeysAreDisciplined | clients/dotnet/src/Ioka.Munarium.Client/MunariumClient.cs:197-211 | no key ever carries two different requests |
| WriteLoopSafety.ResendsOnlyWhenSafe | clients/README.md:222-236 | a key is used again only for the identical request, after a fate of never sent or shed; over gRPC only after the typed overloaded |
| WriteLoopSafety.ProposalsAreBuiltForTheirHead | clients/dotnet/src/Ioka.Munarium.Client/MunariumClient.cs:137 | every proposal is what the caller built for the head it is conditional on |
| Lineage.StepKeepsInv | server/conformance/src/cluster.rs:264-308 | every step of any number of loops, other writers and the network keeps the invariant and only extends the ledger |
| Lineage.RunOnlyAppends | server/conformance/src/cluster.rs:264-308 | nothing appended is ever changed |
| Lineage.NoLostUpdate | clients/dotnet/src/Ioka.Munarium.Client/MunariumClient.cs:132-150 | in every interleaving the claim with sequence number i + 1 is what its loop built for head i, even after stale or zero conflict heads |
| Lineage.ReturnedIsAppended | clients/dotnet/src/Ioka.Munarium.Client/MunariumClient.cs:140-141 | a loop returns the sequence number of its own appended claim |
| Lineage.ReturnedNumbersDiffer | server/conformance/src/cluster.rs:264-308 | no two loops return one sequence number |
| Lineage.OneAppendPerLoop | clients/dotnet/src/Ioka.Munarium.Client/MunariumClient.cs:127-151 | when no answer is misread, at most one claim of each loop is appended, late executions included |
| Lineage.OneAppendExactly | clients/dotnet/src/Ioka.Munarium.Client/Errors.Decode.cs:102-115 | all loops are kept to one append in all runs if and only if a bare ABORTED never answers a proposal that may be executed |
| Lineage.BareAbortedAppendsTwice | clients/dotnet/src/Ioka.Munarium.Client/Errors.Decode.cs:102-115 | for every loop with a second attempt, a run on which it appends two claims |
| Lineage.LoopSendsAreBounded | clients/dotnet/src/Ioka.Munarium.Client/MunariumClient.cs:127-151 | the bound on sends holds in every interleaving |
| Gates.Load | server/tools/gate_catalog.py:16-36 | a catalog is accepted exactly when version, ids, dependencies, directories and commands are good, and is returned unchanged |
| Gates.CatalogMeans | server/tools/gate_catalog.py:18-35 | an accepted catalog has whole steps, no id twice, and dependencies that are ids of earlier steps, and every such catalog is accepted |
| Gates.DependenciesAreEarlier | server/tools/gate_catalog.py:26-27 | dependencies of an accepted catalog are known and stand earlier |
| Gates.SuccessRanEverything | server/tools/gate_catalog.py:39-47 | a successful gate ran exactly its own commands in order, each with return code zero |
| Gates.FailureStops | server/tools/gate_catalog.py:43-47 | a failing gate ran its commands in order up to one with a non-zero code, and none after it |
| Gates.ToolsDecide | server/tools/gate_catalog.py:40-42 | a missing tool other than py fails the gate before anything runs |
| Gates.ArgumentsAre | server/tools/gate_catalog.py:44-45 | every {python} argument is replaced and every other kept; the directory is the gate's own |
| Gates.GateRun.constructor | server/tools/gate_catalog.py:137 | a run starts with nothing completed |
| Gates.GateRun.Execute | server/tools/gate_catalog.py:39-47 | commands run in order until one fails; a missing tool runs none |
| Gates.GateRun.Visit | server/tools/gate_catalog.py:139-145 | a visit terminates, completes the gate after its dependencies and none twice, or stops at a gate that failed after its dependencies |
| Gates.GateRun.VisitAll | server/tools/gate_catalog.py:142-148 | gates are visited in turn until one fails |
| Gates.RunGates | server/tools/gate_catalog.py:134-152 | success completes exactly the least dependency-closed set with the requested gates, each once and in order; bad requests run nothing; a failure stops at the failing gate |
| Gates.CompletedIsClosed | server/tools/gate_catalog.py:139-145 | what completed is closed under dependencies |
| Closure.LeastClosedIsReachability | server/tools/third_party_notices.py:117-132 | the least closed set is what chains of edges from the roots reach |
| Worklist.Reachable | server/tools/third_party_notices.py:117-132 | for any graph, cycles included, the worklist ends with the least set that holds the workspace members and is closed under edges of an allowed kind |
| Worklist.EdgesFollowed | server/tools/third_party_notices.py:128-132 | an edge is followed exactly when one of its kinds is allowed, where no list, null and the empty kind count as normal |
| Worklist.PushTargets | server/tools/third_party_notices.py:128-132 | exactly unvisited targets of allowed edges are pushed |
| Wrap.GreedySets | scripts/diagrams.py:60-68 | greedy lines hold the words in order, each line within the width or a single word |
| Wrap.GreedyIsOptimal | scripts/diagrams.py:57-68 | no way of setting the words on such lines uses fewer of them |
| Wrap.TrialIsLine | scripts/diagrams.py:62 | the stripped trial text is the line with the word added |
| Wrap.WrapParagraph | scripts/diagrams.py:60-68 | the loop over the words appends the greedy lines of the paragraph |
| Wrap.WrapText | scripts/diagrams.py:54-69 | each paragraph is wrapped on its own, in order, and one without words gives one empty line |
| Wrap.ParagraphLines | scripts/diagrams.py:59-68 | the lines of a paragraph hold its words in order, and each fits the width or is one word; without words there is one empty line |
| Wrap.WrapKeepsWords | scripts/diagrams.py:54-69 | wrapping loses, adds and reorders no word of the text |
| Text.SplitJoins | scripts/diagrams.py:59 | paragraphs joined by line breaks are the text, and none holds one |
| Text.WordsAround | scripts/diagrams.py:61 | white space separates words and is no part of them |
| Fields.SplitFields | server/tools/check_retention_inventory.py:38-53 | the scanner returns the trimmed pieces between top-level commas of a balanced text, and refuses any other |
| Text.StripIs | server/tools/check_retention_inventory.py:46-52 | trimming removes white space at both ends, all of it, and nothing else |
| Fields.SplitUndoesJoin | server/tools/check_retention_inventory.py:38-53 | splitting the comma-join of trimmed, balanced fields without top-level commas gives them back |
| Fields.PiecesJoin | server/tools/check_retention_inventory.py:45-47 | the untrimmed pieces joined by commas are the text |
| Fields.PiecesBalanced | server/tools/check_retention_inventory.py:40-52 | each piece is balanced and has no top-level comma |
| Fields.SplitAcceptsBalanced | server/tools/check_retention_inventory.py:48-51 | a text is accepted exactly when its depth is nowhere negative and ends at zero |
| Fields.FindClosing | server/tools/check_retention_inventory.py:86-93 | the scan finds the first offset at which the depth returns to zero |
| Fields.ClosedBodySplits | server/tools/check_retention_inventory.py:86-95 | the body of a closed definition always splits |
| Fields.ClosingFindsBody | server/tools/check_retention_inventory.py:86-95 | a balanced body between parentheses is found whole |
| Schema.ApplyOne | server/tools/check_retention_inventory.py:69-118 | one statement has the effect, or the error, of its kind |
| Schema.Alter | server/tools/check_retention_inventory.py:105-116 | added columns reach the table and the tables whose parent it is, action by action |
| Schema.ActionsAccepted | server/tools/check_retention_inventory.py:108-113 | an alteration is accepted exactly when every action adds a readable column |
| Schema.AlterationEffect | server/tools/check_retention_inventory.py:108-116 | all its columns, the later of one name winning, go to the table and to the tables whose parent it is, and to no other |
| Schema.DeclareAll | server/tools/check_retention_inventory.py:94-102 | constraints are skipped and a repeated column is refused |
| Schema.DeclaredAre | server/tools/check_retention_inventory.py:94-102 | a body declares the columns of its unconstrained fields, with their types, none twice, and no others |
| Schema.TableFromBody | server/tools/check_retention_inventory.py:84-103 | a table is made from the body between its parentheses, whatever follows |
| Schema.PartitionStartsEqual | server/tools/check_retention_inventory.py:78-83 | a partition of a known table starts with its columns, types included |
| Schema.BuildSchema | server/tools/check_retention_inventory.py:66-121 | the nested loops fold all statements in order; no table at all is an error |
| Schema.StatementKeeps | server/tools/check_retention_inventory.py:71-118 | an accepted statement loses no table and no column, and changes no origin or parent |
| Schema.AcceptedStatements | server/tools/check_retention_inventory.py:71-118 | accepted statements are all supported, and every table they make has its migration as origin |
| Schema.MigrationsKeep | server/tools/check_retention_inventory.py:66-121 | over any accepted migrations tables and columns only grow, and a partition of an unpartitioned table keeps all its columns |
| Schema.NestedPartitionsKeepUp | server/tools/check_retention_inventory.py:113-116 | adding a column keeps every partition up with its parent exactly when each partition of a partition of the table already has the column |
| Schema.NestedPartitionMissesColumn | server/tools/check_retention_inventory.py:82-116 | an accepted migration after which a partition of a partition lacks a column |
| Ingest.SpliceIngestResults | clients/dotnet/src/Ioka.Munarium.Client/GrpcTransport.Platform.cs:147-172 | local errors and server results are woven in input order; a short or surplus answer is an error |
| Ingest.IngestFiles | clients/dotnet/src/Ioka.Munarium.Client/GrpcTransport.Platform.cs:69-95 | decodable files are sent once, in order, and nothing is sent when none decodes |
| Ingest.WireCarries | clients/dotnet/src/Ioka.Munarium.Client/GrpcTransport.Platform.cs:102-139 | the wire form carries the decoded content, and a reader gets every other member back exactly when the digest is not the empty text and the collections are not the refused empty list |
| Ingest.LocalErrorIs | clients/dotnet/src/Ioka.Munarium.Client/GrpcTransport.Platform.cs:116-128 | a file that does not decode gives an error result under its own name |
| Ingest.SpliceCounts | clients/dotnet/src/Ioka.Munarium.Client/GrpcTransport.Platform.cs:153-170 | the splice succeeds exactly when there is one result per sent file |
| Ingest.BatchRefinesItems | clients/dotnet/src/Ioka.Munarium.Client/GrpcTransport.Platform.cs:64-95 | if the server answers the sent files in order, result i is the local error or the server outcome of file i, for every mix |
| Ingest.CountMismatchIsError | clients/dotnet/src/Ioka.Munarium.Client/GrpcTransport.Platform.cs:160-170 | any other number of results is an error, never a mis-pairing |
| Notes.ResolvedAre | scripts/p13_cases.py:83-87 | an event stands at a time exactly when it is eligible, removes nothing and no eligible event supersedes it |
| Notes.EligibleInOrder | scripts/p13_cases.py:85 | eligible events keep their order |
| Notes.StandingInOrder | scripts/p13_cases.py:87 | standing events keep their order |
| Notes.PinnedAnswerIsStable | scripts/p13_cases.py:83-87 | appending later-dated events never changes a pinned answer |
| Notes.SnapshotsRefineResolution | scripts/p13_live.py:296-299 | the snapshot at the greatest event time not after the asked one is the direct resolution, for every event list; before the first event there is none |
| Responder.SortedValuesAscend | scripts/p13_cases.py:95 | the rendered values are the distinct values in strictly ascending order |
| Responder.AnswersRead | scripts/p13_cases.py:95-100 | nothing known, one value, and two values called a conflict, as the answer reads |
| Responder.ContextIsPrinted | scripts/p13_cases.py:92-94 | the budget is compared with the length of the printed list |
| Responder.RespondIgnoresOrder | scripts/p13_cases.py:90-105 | permuted evidence gives the same answer, the same fit and the same cited paths |
| Responder.ResolvePermutes | scripts/p13_cases.py:83-87 | resolving permuted events gives a permutation |
| Grader.GradeEvidence | docs/lab/example/grade.py:106-134 | the citation checks are made in order and a leak or a malformed turn is fatal |
| Grader.GradeCase | docs/lab/example/grade.py:93-149 | all checks of one turn are made, in order |
| Grader.PassedIsMet | docs/lab/example/grade.py:93-149 | a case passes exactly when the turn meets the expectation: citations, no leak, terms, sides, insufficiency |
| Grader.FailedMeans | docs/lab/example/grade.py:93-149 | a case fails exactly when its evidence is not met, its completion is malformed, or a given answer is not met |
| Grader.NotRunMeans | docs/lab/example/grade.py:113-149 | a case is not run exactly when its evidence is met and the completion is absent or blank |
| Grader.EvidenceMetMeans | docs/lab/example/grade.py:95-134 | the evidence asked for, word for word: proper hits, none under a barred prefix, one of these, all of those |
| Grader.AnswerMetMeans | docs/lab/example/grade.py:136-147 | the answer asked for, word for word, whatever the case of letters |
| Grader.ContainsMeans | docs/lab/example/grade.py:139 | a part occurs in a text exactly when the text is something, the part, and something |
| Grader.VerdictIgnoresHitOrder | docs/lab/example/grade.py:95-134 | order and repetition of hits never change the checks |
| AnswerKey.Fixture | scripts/p13_cases.py:17-80 | the nested loops build the histories and cases in order |
| AnswerKey.FixtureHolds | scripts/p13_cases.py:17-80 | the fixture holds exactly the histories of the given families and sizes, and one case for every history and arm |
| AnswerKey.KeyAsks | scripts/p13_cases.py:45-65 | what is asked of a history of each family: the ids and values of the events that should be known, the word conflict for a contradiction, insufficiency where nothing holds |
| AnswerKey.FixtureDistinct | scripts/p13_cases.py:19-79 | history ids and case ids of a fixture are distinct |
| AnswerKey.Pad3Denotes | scripts/p13_cases.py:21-22 | numbers in names have at least three digits and denote the number |
| AnswerKey.ArmPicks | scripts/p13_live.py:437-447 | for every split, family and number each policy selects exactly the events it declares |
| PolicyScores.AnswerKeyAgreesWithPolicies | scripts/p13_cases.py:17-80 | graded against the key of a history, a policy passes exactly when the family is among those it is declared to pass and, if it cites anything, the split is not named forbidden/... |
| PolicyScores.FixtureAgreesWithPolicies | scripts/p13_cases.py:17-80 | every case of the fixture belongs to a history of the fixture, and grading a policy against the case's own expectation gives the declared result |
| PolicyScores.FixtureRepeatsNothing | scripts/p13_cases.py:66-79 | no case id is repeated and no history has a task twice |
| PolicyScores.ForbiddenSplitFails | scripts/p13_cases.py:54 | a split on which a competent policy fails |
| PolicyScores.VerdictIgnoresRetrievalOrder | scripts/p13_live.py:435-449 | the verdict of the retrieval policies is the same for every order of the hits |
| FrozenEval.CheckAssignments | scripts/frozen_eval.py:227-238 | the two dictionaries accept exactly the case lists in which no history is in two splits or has a task twice |
| FrozenEval.ScoreCase | scripts/frozen_eval.py:328-356 | one row is scored by its status or by the checks of its turn |
| FrozenEval.ScoreMeans | scripts/frozen_eval.py:330-356 | a case is failed, not run or passed exactly by the status of its row and, when it was answered, by what its turn has of the expectation; the reason says which |
| FrozenEval.GradeRaw | scripts/frozen_eval.py:323-383 | a valid raw record gives the sealed grading of all its cases; any other gives none |
| FrozenEval.GradingMeans | scripts/frozen_eval.py:357-381 | over the raw rows: exit code 1 when some case failed, otherwise 3 when some was not run, otherwise 0; the record names its manifest, raw record, source and graders |
| FrozenEval.UnknownUsageAdds | scripts/frozen_eval.py:378-381 | a row counts as unknown usage when its usage or one of its two counts is unknown |
| FrozenEval.RowsAreTheCases | scripts/frozen_eval.py:252-255 | a valid raw record has exactly one row for every case and none besides |
| FrozenEval.QualificationIsFrozen | scripts/frozen_eval.py:239-281 | a qualification run is decided on, held out throughout, and committed beforehand |
| FrozenEval.ExitCodeMeans | scripts/frozen_eval.py:357-363 | the exit code is 1, 3 or 0 exactly by failed, then not run, then all passed |
| FrozenEval.VerifyBundle | scripts/frozen_eval.py:386-453 | a bundle is accepted exactly when every record is sealed, named once and valid next to the others and no run is recorded twice |
| FrozenEval.GradedRecordIsOk | scripts/frozen_eval.py:409-452 | a grading written and read back agrees with everything that is recomputed from it |
| FrozenEval.GradingExtendsBundle | scripts/frozen_eval.py:323-453 | appending the read-back grading of a valid raw record to any accepted bundle that holds it gives an accepted bundle |
| FrozenEval.PairIsAccepted | scripts/frozen_eval.py:386-408 | a valid manifest and raw record of different ids are an accepted bundle |
| FrozenEval.AcceptedGrading | scripts/frozen_eval.py:409-439 | in an accepted bundle every grading names a manifest and raw record that belong together, scores each case once in order, and states the code of its outcomes |
| FrozenEval.CurrentGradingIsReproduced | scripts/frozen_eval.py:443-452 | in an accepted bundle a grading by the current sources is exactly what grading again gives |
| Latency.LatencyReport | scripts/frozen_eval.py:502-545 | the report of valid samples, or the first thing wrong with them |
| Latency.ReportIsConsistent | scripts/frozen_eval.py:532-545 | percentiles are nearest-rank values of the correct samples, ordered between minimum and maximum, and outcome counts sum to what was offered |
| Latency.ReportedWhen | scripts/frozen_eval.py:504-531 | a report is made exactly of at least one sample, all with proper durations, over a positive time |
| Latency.GoodputMeans | scripts/frozen_eval.py:536 | goodput times the elapsed time is the correct requests |
| Latency.SortedNearestRank | scripts/frozen_eval.py:537-538 | the value of rank k has at least k samples at or below it and fewer than k below anything smaller |
| Latency.RanksAreCeilings | scripts/frozen_eval.py:537-538 | the ranks are the ceilings of n / 2 and 19 n / 20 |
| Latency.SustainedIsRun | scripts/p13_live.py:762-765 | the window test holds exactly when some run of consecutive breaches is that long |
| Latency.VerdictMeans | scripts/p13_live.py:757-775 | a complete measurement regresses exactly when a repetition exceeds the absolute limit or enough consecutive ones exceed the relative one |
| Latency.SummaryIsReport | scripts/p13_live.py:725-737 | what is judged of a repetition is the nearest-rank 95th percentile of its passed samples |
| Latency.CompleteMeans | scripts/p13_live.py:738-740 | a measurement is complete exactly when every repetition was measured and every sample passed |
| Latency.FrozenLimits | scripts/p13_live.py:194-201 | the absolute limit is one and a half times the greatest percentile, rounded up; the relative one a fifth above it in two consecutive repetitions |
| Latency.CalibrationProposes | scripts/p13_live.py:741-749 | a calibration proposes what freezing sets |
| Latency.BaselineIsWithinItsBudget | scripts/p13_live.py:189-204 | a complete baseline with a repetition, judged by the budget frozen from it, is within budget; without repetitions the budget has no limits |
| Latency.SummarizeRuns | scripts/p13_live.py:725-736 | each repetition is summarised in order, or the first error is the result |
| Latency.Calibration | scripts/p13_live.py:722-777 | every workload is reported by its own repetitions and limits |

## Findings

| finding | source | members |
|---|---|---|
| A gRPC ABORTED without the server's detail is read as a head conflict, so after a proposal that was executed the loop reads the head and proposes again under a fresh key: two claims can be appended. The loop appends at most once exactly when such an answer never follows an executed proposal, or when it has one attempt. Over REST there is no such answer. | clients/dotnet/src/Ioka.Munarium.Client/Errors.Decode.cs:102-115 | Lineage.BareAbortedAppendsTwice, Lineage.OneAppendExactly, WriteLoopSafety.AtMostOnceExactly |
| The generated key bars every path that starts with `forbidden/`, also for a split of such a name; every policy that cites anything then fails. For all other splits the key agrees with the policies. | scripts/p13_cases.py:54 | PolicyScores.ForbiddenSplitFails, PolicyScores.AnswerKeyAgreesWithPolicies |
| A column added to a table reaches its partitions but not theirs. All partitions keep up exactly when each partition of a partition already has the column. | server/tools/check_retention_inventory.py:113-116 | Schema.NestedPartitionMissesColumn, Schema.NestedPartitionsKeepUp |
| A workload without repetitions counts as complete; the budget frozen from it has no limits, and judging by it fails. | scripts/p13_live.py:737-758 | Latency.BaselineIsWithinItsBudget |
| The comment that UTF-16 order differs from code-point order above the basic plane is true only of a supplementary character against one from U+E000 to U+FFFF. | server/contract/datastore/canonicalize.py:42-44 | Utf16.AgreesWithCodePointOrder |

## Left out

- The Rust kernel, the stores and the datastore: only the promises above are taken from the conformance scenarios.
- UTF-8, SHA-1, SHA-256, base64 and JSON reading are functions given to the model; decoded proofs are compared, so two base64 spellings of the same bytes are one proof.
- Lone surrogates: strings are sequences of Unicode scalar values.
- Error message texts, exception details, gate findings and the detail column of checks.
- `DelayAsync`, cancellation, deadlines, TLS and HTTP plumbing: time does not enter the model, and waiting changes no state.
- Idempotency keys supplied by a caller, and the acceptance without a claim that the gRPC transport turns into an error after the retry engine has returned.
- `CheckBulkFiles` and the other argument checks of the ingest plane; the conversion of wire results.
- Git's peeling and abbreviation of ids: a store finds an object by exact kind and id. A manifest without an id is not modelled.
- InclusionProof.Verify: the errors of a tree without NUL or space are one invalid-tree error.
- FrozenEval.GradeRaw: the optional latency field of a grading is not part of the record.
- FrozenEval.VerifyBundle: record fields are typed, so checks of JSON types are not modelled; the remaining field checks of a manifest are one given predicate, and the commit lookup of a qualification run another.
- Grader.GradeCase: lower-casing is modelled for ASCII letters only.
- AnswerKey.ArmPicks: the `munarium` arm, which asks the ledger, and the bypass taken when an unauthorised search succeeds are not modelled; hits are events of the history.
- Latency.LatencyReport: durations are real numbers and ranks exact ceilings, so rounding, infinities and not-a-number are not modelled. Descriptive fields of the calibration report are left out.
- Schema.BuildSchema: comment masking, statement splitting and the regular expressions are given; statements arrive recognised.
- Wrap.WrapText: `str.split` and `str.strip` are modelled by functions of the project.
- Worklist.Reachable: the listing of components after the worklist.
- Gates.RunGates: boundary checks and command-line parsing.
- The paired bootstrap, the event stream, generated API code, license and link tools.
