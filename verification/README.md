# Meridian kernels in Dafny

A Dafny 4.11 model of the algorithmic and protocol kernels of the Meridian platform, with
proofs of what they are for. `dafny verify dfyconfig.toml` checks everything. Each module
models one source file or one protocol.

| module | what it models |
|---|---|
| `GoString` | the order of Go strings |
| `CanonScalar`, `CanonResolver` | scalar styles, escapes and the implicit resolver of the canonical pack serialiser, with a reader for them |
| `CanonGrammar` | the same languages as a grammar, and the style of every string |
| `CanonTree` | document trees, key sorting, canonical form, decoded values |
| `CanonText`, `CanonDocument` | block layout as lines and as text, the reader, documents and signing text |
| `CanonEmitter` | the imperative emitter, appending to its builder |
| `HexCodec`, `PackVerify` | the signature check of a pack and the binding of canonical text to it |
| `RelationChecker` | the relation checker's recursive search with visited set and depth cut |
| `AuditBundle` | union-find over ring detections and the audit cases built from it |
| `EntityIndex` | the lazily rebuilt entity index, sequentially and as an interleaving of atomic steps |
| `Thresholds` | the AML sliding window with its in-place filter, and alert de-duplication |
| `Drift`, `Changepoint`, `Geo` | two-pointer Kolmogorov-Smirnov, CUSUM, ray casting |
| `Ed25519` | double-and-add and the signature equation over any commutative group (RFC 8032, sections 5.1.5 to 5.1.7) |
| `Saga` | the saga runner and activity retries |
| `Consents` | the consent lifecycle, checks and erasure |
| `StepUp` | step-up tickets and the single-use store |
| `Sessions` | session epochs: login, user changes, deletion |
| `AuditQueue` | the audit retry queue |

How the pieces fit: imperative code is a method or a class method proved against a function
of the old state; whole-history and whole-run theorems are lemmas about those functions. The
canonical text is specified by a layout (`CanonText`) that the emitter's methods are proved to
produce, and the round trip is proved for the layout. What a method and the theorems about it
share (word lists, constants, refusals, layout) is stated a second time in lemmas that write the
condition out.

## Where the code and its documentation differ

- Canonical text: a top-level key whose text starts with `--- ` or `... ` is printed unquoted,
  which makes a document marker (YAML 1.2 section 9.1.2), and an empty body prints nothing. Such
  a text can decode to another body, which then binds under its signature
  (`PackVerify.OtherPackIsAccepted`, `PackVerify.TruncatedPackIsAccepted`).
- Canonical text: U+FFFE and U+FFFF, which YAML excludes, and U+2028 and U+2029, which YAML 1.1
  takes for line breaks, are printed as they are; keys may be longer than the 1024 characters
  that YAML allows. `CanonDocument.SubsetExactly` and `CanonDocument.DocumentRoundTrip` give the
  exact condition for these and the marker keys.
- Canonical text: a literal that the emitter's expressions do not know is printed as the string
  with its text is (`CanonScalar.LiteralLooksLikeString`), so the two documents have one text.
- Binding: an artifact with a NaN literal is never bound to its own pack.
- Relation checker: the depth cut can answer no on a derivable query once a chain of 18 distinct
  goals leads from it; where all chains have at most 17 it loses nothing. An object name with #
  can hide a derivable goal.
- Kolmogorov-Smirnov: values shared by both samples can raise the result above the statistic;
  the exact value and condition are proved.
- Entity index: a failed listing is published as a loaded, empty index.
- Consent: erasure leaves records already marked expired renewable by an admin, and a failing
  listing of the legal holds lets an erasure through.
- Tickets: in the second of its expiry a ticket can be accepted again.
- Sessions: a second bump in the second of the first leaves a token issued between them alive;
  a change of tenant alone ends no session, so tokens may name an old tenant. A role change
  inside a login can leave an accepted token with the old roles.
- Audit queue: the retry order is the order of appending, which is failure order only while
  forwards reach the lock in the order in which they failed.

## Model

| member | source | states |
|---|---|---|
| `CanonScalar.ResolvesAgree` | packages/rulepack-schema/canon_yaml.go:357-362 | for every string, the emitter's test for non-strings agrees with the tag of the reader's resolver, both built from the source's expressions |
| `CanonScalar.ReadSingleUndoes` | packages/rulepack-schema/canon_yaml.go:438-440 | single-quoted style: doubling every quote is undone by the reader, whatever follows, for every text without a line break |
| `CanonScalar.ReadHexUndoes` | packages/rulepack-schema/canon_yaml.go:455-461 | fixed-width upper-case hexadecimal has the promised width and reads back to its number |
| `CanonScalar.EscapeCharUndoes` | packages/rulepack-schema/canon_yaml.go:444-466 | each character as printed in double-quoted style (`\"`, `\\`, `\n`, `\t`, `\xNN`, `\uNNNN`, `\UNNNNNNNN`, or itself) reads back as that one character |
| `CanonScalar.ReadDoubleUndoes` | packages/rulepack-schema/canon_yaml.go:441-469 | double-quoted style is undone by the reader for every string, whatever follows the closing quote |
| `CanonScalar.PlainIsSafe` | packages/rulepack-schema/canon_yaml.go:381-420 | whatever the style analysis allows unquoted has the shape of one whole plain scalar (no indicator start, no ": " or " #" inside), and is plain text of YAML 1.2 section 7.3.3 if and only if it has no U+FFFE or U+FFFF |
| `CanonScalar.ScanRoundTrip` | packages/rulepack-schema/canon_yaml.go:422-470 | every string, in whichever of the three styles it is printed, scans as exactly that string and never as a number, boolean, null or timestamp |
| `CanonScalar.ScalarRoundTrip` | packages/rulepack-schema/canon_yaml.go:422-470 | in a stream that has to be printable (YAML 1.2 section 5.1) it reads back so if and only if it has no U+FFFE or U+FFFF |
| `CanonScalar.PrintedCharacters` | packages/rulepack-schema/canon_yaml.go:364-379 | the emitter prints only characters of a YAML stream, except U+FFFE and U+FFFF; these and U+2028, U+2029 it prints exactly where the string has them |
| `CanonScalar.LiteralLooksLikeString` | packages/rulepack-schema/canon_yaml.go:302-311 | a number or timestamp literal is printed as the string with its text if and only if the emitter's expressions do not know it |
| `CanonScalar.KeyRoundTrip` | packages/rulepack-schema/canon_yaml.go:144-150 | a printed key followed by ":" and a value or the line end reads back as that key and leaves the rest |
| `CanonScalar.ScalarIsOnlyAScalar` | packages/rulepack-schema/canon_yaml.go:425-470 | a printed string is never empty, never a "- " entry, never a "key:" line, never `{}` or `[]` |
| `CanonScalar.PlainIsOnlyAScalar` | packages/rulepack-schema/canon_yaml.go:304-326 | the same for the literals of numbers, timestamps, booleans and null, which are printed as they are |
| `CanonResolver.LetterZIsAString` | packages/rulepack-schema/canon_yaml.go:334-362 | a text containing the letter z matches none of the number and timestamp expressions nor the word lists |
| `CanonResolver.NaNIsAFloat` | packages/rulepack-schema/canon_yaml.go:336-340 | `.nan` is in the float expression |
| `CanonGrammar.FloatExactly` | packages/rulepack-schema/canon_yaml.go:336-340 | the float expression matches exactly the texts of a grammar written without it: digits with a point and exponent, a point first, sexagesimal with a point, infinities, NaN |
| `CanonGrammar.IntExactly` | packages/rulepack-schema/canon_yaml.go:341-345 | the same for integers: decimal, zero, octal, binary, hexadecimal, sexagesimal |
| `CanonGrammar.TimestampExactly` | packages/rulepack-schema/canon_yaml.go:347-350 | the same for dates and for dates with a time and a zone |
| `CanonGrammar.TagExactly` | packages/rulepack-schema/canon_yaml.go:334-362 | which texts are read as null, boolean, merge or value key, float, integer, timestamp, and that every other text is a string |
| `CanonGrammar.StyleExactly` | packages/rulepack-schema/canon_yaml.go:381-470 | the style of every string: double quotes exactly when it has a control character or a byte order mark; otherwise no quotes exactly when it has the shape of one plain scalar and looks like nothing but a string; otherwise single quotes |
| `CanonGrammar.EscapesExactly` | packages/rulepack-schema/canon_yaml.go:444-466 | how every character appears between double quotes: two characters for quote, backslash, line feed and tab, `\xNN` in upper case for other control characters, `\uFEFF` for the byte order mark, itself otherwise |
| `CanonGrammar.ScalarExactly` | packages/rulepack-schema/canon_yaml.go:304-326 | what every scalar node prints as, and exactly which are refused |
| `CanonGrammar.UsualNumbers` | packages/rulepack-schema/canon_yaml.go:334-362 | decimal integers, decimal fractions and dates are read with their tag, and single-quoted as strings |
| `GoString.LessTransitive` | packages/rulepack-schema/canon_yaml.go:130 | the key order is transitive |
| `GoString.LessTotal` | packages/rulepack-schema/canon_yaml.go:130 | the key order is a strict total order |
| `GoString.LessExactly` | packages/rulepack-schema/canon_yaml.go:130 | a text comes first if it is a proper prefix of the other or has the smaller character at the first difference |
| `CanonTree.SortKeeps` | packages/rulepack-schema/canon_yaml.go:118-132 | key-sorting keeps exactly the pairs, with multiplicity |
| `CanonTree.SortSorts` | packages/rulepack-schema/canon_yaml.go:130 | pairs with distinct keys come out strictly ascending |
| `CanonTree.SortedIsFixed` | packages/rulepack-schema/canon_yaml.go:130 | sorted pairs are left alone |
| `CanonTree.CanonIsCanonical` | packages/rulepack-schema/canon_yaml.go:118-132 | sorting every mapping and normalising booleans and nulls gives a tree in canonical form |
| `CanonTree.CanonFixed` | packages/rulepack-schema/canon_yaml.go:118-132 | a tree in canonical form is unchanged by canonicalisation |
| `CanonTree.CanonKeepsValue` | packages/rulepack-schema/canon_yaml.go:47-52 | canonicalisation keeps the decoded value, at every depth |
| `CanonTree.CanonicalUnique` | packages/rulepack-schema/canon_yaml.go:47-52 | a value has one canonical tree: canonical trees that decode alike are equal |
| `CanonTree.DeepEqualExactly` | packages/rulepack-schema/verify.go:109 | reflect.DeepEqual on separately decoded values is equality, except that a value holding a NaN equals nothing, not even itself |
| `CanonTree.NaNFromLiteral` | packages/rulepack-schema/verify.go:97-109 | a decoded value holds a NaN if and only if the document has a NaN literal, at any depth |
| `CanonText.InlineRoundTrip` | packages/rulepack-schema/canon_yaml.go:160-191 | a value printed on its key line reads back as that value and is not mistaken for an entry or a key line |
| `CanonText.MapRoundTrip` | packages/rulepack-schema/canon_yaml.go:141-156 | a block mapping at any indent, followed by anything further left, reads back as exactly its pairs and leaves the rest |
| `CanonText.EntryRoundTrip` | packages/rulepack-schema/canon_yaml.go:143-153 | one key with its value, inline or as a block below, reads back as that pair |
| `CanonText.ChildRoundTrip` | packages/rulepack-schema/canon_yaml.go:173-198 | a nested block (mapping two columns in, sequence at the column of its key) reads back as that node |
| `CanonText.SeqRoundTrip` | packages/rulepack-schema/canon_yaml.go:212-278 | an indentless block sequence reads back as its items and stops before the next key at the same column |
| `CanonText.ItemRoundTrip` | packages/rulepack-schema/canon_yaml.go:214-276 | one item: scalar, empty collection, mapping or sequence started on the dash line, reads back as that node |
| `CanonText.LayoutUnderKey` | packages/rulepack-schema/canon_yaml.go:160-209 | the lines under a key, spelled out at every indent: inline values and empty collections on the line of the key, a mapping two columns in, a sequence at the column of the key |
| `CanonText.LayoutInSequence` | packages/rulepack-schema/canon_yaml.go:212-300 | the lines of an item, spelled out: the first after the dash, the others two columns in |
| `CanonDocument.MarkerLines` | packages/rulepack-schema/canon_yaml.go:141-156 | exactly the top-level keys that print as document markers put a marker line into the text |
| `CanonDocument.TextReadsBack` | packages/rulepack-schema/canon_yaml.go:52-74 | the canonical text, cut into lines and parsed as a block mapping, is the body with every mapping key-sorted |
| `CanonDocument.SubsetExactly` | packages/rulepack-schema/canon_yaml.go:52-74 | the text stays within plain YAML (not empty, no document marker line, no U+2028, U+2029, U+FFFE or U+FFFF, no key over 1024 characters) if and only if the document does, string by string and key by key |
| `CanonDocument.DocumentRoundTrip` | packages/rulepack-schema/canon_yaml.go:52-74 | printer and parser are inverse on exactly those documents |
| `CanonDocument.Canonicity` | packages/rulepack-schema/canon_yaml.go:47-74 | two documents have the same signing text if and only if their bodies decode to the same value, numbers and timestamps by tag and literal: key order at any depth and the signed block do not matter, anything else does |
| `CanonDocument.CanonicalTextIsFixed` | packages/rulepack-schema/canon_yaml.go:47-74 | canonicalising what was read back from canonical text gives the same text |
| `CanonEmitter.SortCommutes` | packages/rulepack-schema/canon_yaml.go:130 | sorting pairs and canonicalising values below commute |
| `CanonEmitter.DashText` | packages/rulepack-schema/canon_yaml.go:240-251 | moving a block onto a dash line replaces its indent by the dash and nothing else |
| `CanonEmitter.SortedPairs` | packages/rulepack-schema/canon_yaml.go:118-132 | fails exactly when a key is not a string; else the pairs sorted, without the top-level signed pair when asked |
| `CanonEmitter.Emitter.Indent` | packages/rulepack-schema/canon_yaml.go:134-138 | appends exactly n spaces |
| `CanonEmitter.Emitter.EmitMapping` | packages/rulepack-schema/canon_yaml.go:141-156 | fails exactly on what has no canonical form; else appends exactly the text of the pairs |
| `CanonEmitter.Emitter.EmitValue` | packages/rulepack-schema/canon_yaml.go:160-209 | the same for the value after "key:" |
| `CanonEmitter.Emitter.EmitSequence` | packages/rulepack-schema/canon_yaml.go:212-278 | the same for block sequence items |
| `CanonEmitter.Emitter.EmitItem` | packages/rulepack-schema/canon_yaml.go:213-276 | the same for one item |
| `CanonEmitter.Emitter.EmitSequenceInline` | packages/rulepack-schema/canon_yaml.go:281-300 | the same for a sequence inside a sequence, which may hold scalars only |
| `CanonEmitter.CanonicalSigningBytes` | packages/rulepack-schema/canon_yaml.go:52-74 | the builder ends with the canonical text of the layout the round trip is proved for; refused exactly for documents without one |
| `PackVerify.BindCanonicalToPack` | packages/rulepack-schema/verify.go:94-113 | the copy loop and comparison give the binding verdict |
| `PackVerify.DecodeCanonicalText` | packages/rulepack-schema/verify.go:98-101 | canonical text decodes to the value of the body if the document is safe and the decoder reads its plain scalars with their tags; otherwise to whatever the decoder makes of it (a parameter) |
| `PackVerify.BindingExact` | packages/rulepack-schema/verify.go:92-113 | the binding check passes if and only if the rule pack minus its signed block is what the text decodes to and holds no NaN |
| `PackVerify.RejectsOthersExactly` | packages/rulepack-schema/verify.go:92-113 | every pack with a different body is rejected, whatever the decoder makes of text outside the subset, if and only if the document is safe and the decoder reads its plain scalars with their tags |
| `PackVerify.DecodeBody` | packages/rulepack-schema/verify.go:102-108 | dropping the signed pair from the tree is dropping the signed key from the value |
| `PackVerify.OwnPackBinds` | packages/rulepack-schema/verify.go:84-113 | a pack parsed from its own artifact is bound to it if and only if the body has no NaN literal and either the document is safe and its plain scalars are read with their tags, or the decoder gives the body back all the same |
| `PackVerify.AcceptedExactly` | packages/rulepack-schema/verify.go:39-90 | an artifact is accepted if and only if its text is not empty and decodes to the body of the rule pack, which holds no NaN, the algorithm is ed25519, the key is pinned, the signature is 64 bytes of hex and verifies over the canonical text |
| `PackVerify.RejectedExactly` | packages/rulepack-schema/verify.go:45-113 | each rejection names the first check that fails, in the order of the code |
| `HexCodec.HexValueExactly` | packages/rulepack-schema/verify.go:62-65 | the value of each hexadecimal digit, in both cases |
| `HexCodec.HexBytesExactly` | packages/rulepack-schema/verify.go:62-65 | exactly the texts with two digits a byte decode, each pair to its byte |
| `HexCodec.HexBytesUndoes` | packages/rulepack-schema/verify.go:62-65 | bytes printed with two digits each decode to themselves |
| `PackVerify.NoReplay` | packages/rulepack-schema/verify.go:69-74 | packs accepted over the same signed text have the same body |
| `PackVerify.NaNIsRejected` | packages/rulepack-schema/verify.go:109 | the artifact `z: .nan` is not bound to its own pack |
| `PackVerify.OtherPackIsAccepted` | packages/rulepack-schema/verify.go:92-113 | the artifact with keys `--- {zz` and `z` prints as one explicit document with a flow mapping; for a decoder that reads it so, a pack with another body binds |
| `PackVerify.TruncatedPackIsAccepted` | packages/rulepack-schema/verify.go:84-113 | the artifact with keys `+z` and `--- {zz` prints as two documents; for a decoder that returns the first, a pack holding only `+z` is accepted under a signature over the whole text |
| `RelationChecker.Checker.constructor` | packages/permify-models/checker.go:36-43 | later definitions of the same entity and name replace earlier ones |
| `RelationChecker.DefsExactly` | packages/permify-models/checker.go:36-43 | for every list, entity:name is a key exactly if some definition has that key, and holds the last one that does |
| `RelationChecker.Checker.HasTuple` | packages/permify-models/checker.go:82-87 | the scan finds exactly the direct tuples |
| `RelationChecker.Checker.CheckRelation` | packages/permify-models/checker.go:67-71 | the search from an empty visited set |
| `RelationChecker.Checker.ExpandGoal` | packages/permify-models/checker.go:73-118 | the recursive search, answer and final visited set, with the shared set marked in place |
| `RelationChecker.CheckSound` | packages/permify-models/checker.go:67-118 | whatever the tuples and definitions, true implies a derivation from tuples, unions and dotted walks |
| `RelationChecker.KeysDiffer` | packages/permify-models/checker.go:77 | visited keys separate goals whose object has no # |
| `RelationChecker.ExpandComplete` | packages/permify-models/checker.go:73-118 | a failed search has exhausted what it marked: every goal newly marked has no direct tuple and leads only to marked goals, despite the cut |
| `RelationChecker.CheckExact` | packages/permify-models/checker.go:67-118 | however many goals there are, if no chain of distinct goals from the query is longer than 17 then Check is true if and only if the query is derivable |
| `RelationChecker.CheckExactOnFewGoals` | packages/permify-models/checker.go:67-118 | in particular on any closed set of at most 17 goals |
| `RelationChecker.EntityExactly` | packages/permify-models/checker.go:60-65 | the entity of an object is what stands before its first colon, the whole without one or with one in front |
| `RelationChecker.HasRelationExactly` | packages/permify-models/checker.go:67-118 | having a relation by the lists of tuples and definitions (last definition of a key, first dot of an entry) is derivability in the checker built from them |
| `RelationChecker.CheckOnce` | packages/permify-models/checker.go:36-118 | a checker built from the lists and asked: yes implies that the subject has the relation by the lists; if no chain of distinct goals is longer than 17, no implies that it does not |
| `RelationChecker.DepthCutLosesAtEighteen` | packages/permify-models/checker.go:74-76 | 17 is the bound: chains of at most 18 goals, a derivable query, answered false |
| `RelationChecker.HashesCollide` | packages/permify-models/checker.go:77-80 | with # in an object name a derivable query is answered false, because another goal has marked its key |
| `AuditBundle.HalvingKeepsForest` | ml/serving/audit_bundle.py:22-26 | path halving keeps the forest and every root and makes progress |
| `AuditBundle.Find` | ml/serving/audit_bundle.py:22-26 | terminates without ranks and returns the root; the halving keeps the forest and every root |
| `AuditBundle.Union` | ml/serving/audit_bundle.py:28-29 | merges exactly the two trees and stays acyclic |
| `AuditBundle.Link` | ml/serving/audit_bundle.py:31-37 | after all memberships, two detections share a root if and only if a chain of pairwise shared members links them |
| `AuditBundle.Components` | ml/serving/audit_bundle.py:18-41 | the groups partition the detections, and two are together if and only if they are chain-linked |
| `AuditBundle.SizesAddUp` | ml/serving/audit_bundle.py:56-80 | the sizes of the groups of a partition sum to the number of detections |
| `AuditBundle.MembersInOneCase` | ml/serving/audit_bundle.py:56-57 | no member is in detections of two groups |
| `AuditBundle.BundleAuditCases` | ml/serving/audit_bundle.py:44-80 | cases partition the detections into connected components, each lists exactly the members of its detections, no member is in two cases, and the counts agree |
| `EntityIndex.Index.Invalidate` | services/tin-graph/entity_index.go:27-31 | clears loaded and nothing else |
| `EntityIndex.Index.Rebuild` | services/tin-graph/entity_index.go:41-60 | a second rebuild under the lock is a no-op; else the list is the listing (empty on error) with both maps pointing into it, first match for a hash |
| `EntityIndex.Index.FindByID` | services/tin-graph/entity_index.go:70-78 | equals a linear scan when ids are unique, the last one of an id otherwise; not found exactly when absent |
| `EntityIndex.Index.FindByTINHash` | services/tin-graph/entity_index.go:80-88 | for a non-empty hash, the first match of a linear scan; the empty hash finds nothing |
| `EntityIndex.InvStep` | services/tin-graph/entity_index.go:27-121 | every atomic step of every request keeps the protocol invariant |
| `EntityIndex.InvRun` | services/tin-graph/entity_index.go:27-121 | the invariant holds after every interleaving of any number of readers and writers |
| `EntityIndex.LoadedIsFresh` | services/tin-graph/entity_index.go:33-61 | in every reachable state that is loaded with no writer between write and invalidate, the list equals the store, exactly unless the listing failed while the store was not empty |
| `EntityIndex.LookupSeesReturnedWrites` | services/tin-graph/entity_index.go:63-121 | what a lookup read is a content the store has had, no older than any write that returned before the lookup began |
| `EntityIndex.FailedListingIsServed` | services/tin-graph/entity_index.go:46-60 | a run in which a failed listing is published as loaded |
| `Thresholds.FilterInPlace` | services/ledger/thresholds.go:96-102 | the filter through the aliasing slice leaves exactly the recent entries in order |
| `Thresholds.FilterAppend` | services/ledger/thresholds.go:96-103 | then the new entry, in place or in a fresh array |
| `Thresholds.ThresholdTracker.Observe` | services/ledger/thresholds.go:61-135 | new windows, flags and events, with windows of different accounts kept in separate arrays |
| `Thresholds.WindowExact` | services/ledger/thresholds.go:93-104 | over any history with a nondecreasing clock the window is exactly the sub-threshold transfers of the 24 hours up to the last one, in order |
| `Thresholds.WindowAfterTransfer` | services/ledger/thresholds.go:93-104 | right after a sub-threshold transfer: those of the last 24 hours |
| `Thresholds.AlertExactly` | services/ledger/thresholds.go:112-118 | within the entry bound, a sub-threshold transfer alerts if and only if its 24 hours hold at least three such transfers totalling the threshold and no alert of the account |
| `Thresholds.AlertsSpaced` | services/ledger/thresholds.go:113-118 | alerts of one account are more than 24 hours apart |
| `Thresholds.FlagTest` | services/ledger/thresholds.go:113-115 | the flag test is: an alert of the account in the last 24 hours |
| `Thresholds.NoOverflow` | services/ledger/thresholds.go:105-111 | up to 18,446,744,092 entries the uint64 total is the true total |
| `Thresholds.WrapsModulo` | services/ledger/thresholds.go:105-111 | the uint64 total is the true total modulo 2^64, for any window |
| `Thresholds.OverflowIsPossible` | services/ledger/thresholds.go:105-118 | one entry more can wrap the total around to less than the threshold |
| `Thresholds.SplitIsDetected` | services/ledger/thresholds.go:112-133 | any three or more sub-threshold transfers of an account within 24 hours totalling the threshold imply an alert at the last of them or in the 24 hours before |
| `Thresholds.WindowPositions` | services/ledger/thresholds.go:93-104 | an account's window holds exactly its transfers below one billion kobo of the last 24 hours, each once, in order |
| `Thresholds.ReportExactly` | services/ledger/thresholds.go:74-82 | a transfer is reported if and only if it is at least one billion kobo; that is then its only event and changes no window and no flag |
| `Thresholds.ReviewExactly` | services/ledger/thresholds.go:84-91 | it is up for review if and only if it is at least 800 million and below one billion kobo |
| `Thresholds.EventsExactly` | services/ledger/thresholds.go:84-134 | below the threshold: exactly the review and the alert, in this order, the alert with the size, total and largest transfer of the window, within the entry bound |
| `Thresholds.OthersUntouched` | services/ledger/thresholds.go:92-120 | a transfer leaves the windows and flags of other accounts alone |
| `Drift.WalkSorted` | ml/monitoring/drift.py:50-59 | the two-pointer walk gives the supremum of the distances and of the overshoots at shared values, though it stops when one sample ends |
| `Drift.KsStatistic` | ml/monitoring/drift.py:45-59 | the same for unsorted samples; 0 when one is empty |
| `Drift.AtMostOne` | ml/monitoring/drift.py:45-59 | the result is between 0 and 1 |
| `Drift.StatisticExists` | ml/monitoring/drift.py:45-59 | the Kolmogorov-Smirnov statistic exists for all non-empty samples: the largest distance at their values |
| `Drift.EqualsKSExactly` | ml/monitoring/drift.py:45-59 | the result is never below that statistic, and equal to it if and only if no shared value overshoots it |
| `Drift.EqualsKSWithoutTies` | ml/monitoring/drift.py:45-59 | equal whenever no value is in both samples, duplicates inside one sample included |
| `Drift.TieOvershoots` | ml/monitoring/drift.py:53-58 | samples [0] and [0]: the statistic is 0, the result 1 |
| `Geo.XIntSymmetric` | geo-rs/src/main.rs:81 | the intersection does not depend on the direction of the edge |
| `Geo.XIntBetween` | geo-rs/src/main.rs:80-81 | and lies between the longitudes of its endpoints |
| `Geo.PointInPolygon` | geo-rs/src/main.rs:70-89 | the loop computes the parity of crossed edges of the closed ring, false below three vertices |
| `Geo.SmallRings` | geo-rs/src/main.rs:71-74 | the early return changes no answer |
| `Geo.ChordCut` | geo-rs/src/main.rs:70-89 | cutting along any chord: inside the whole is the exclusive or of inside the parts |
| `Geo.FanDecomposition` | geo-rs/src/main.rs:70-89 | the answer for a polygon is the exclusive or over its fan of triangles |
| `Geo.RotationInvariant` | geo-rs/src/main.rs:70-89 | the starting vertex does not matter |
| `Geo.ReversalInvariant` | geo-rs/src/main.rs:70-89 | nor does the orientation |
| `Geo.RepeatedVertexInvariant` | geo-rs/src/main.rs:70-89 | nor do repeated vertices, such as a closing one |
| `Geo.InsideBox` | geo-rs/src/main.rs:70-89 | inside implies minx <= lon < maxx and miny <= lat < maxy |
| `Geo.CrossesBySide` | geo-rs/src/main.rs:80-84 | an edge is counted exactly when it rises with the point strictly left or falls with it strictly right |
| `Geo.TriangleExact` | geo-rs/src/main.rs:70-89 | off the lines through its edges a counterclockwise triangle is answered exactly: strictly left of all three edges |
| `Geo.TriangleInterior` | geo-rs/src/main.rs:70-89 | every point strictly inside a triangle is inside, also level with a vertex |
| `Changepoint.AccumulatorsAreMaxSuffixes` | ml/monitoring/changepoint.py:82-83 | after any stream each accumulator is the maximum over suffixes since the last reset, empty included, of the sum of z - k (of -z - k) |
| `Changepoint.SignalsExactly` | ml/monitoring/changepoint.py:84 | a signal is raised if and only if some suffix since the last one sums above h |
| `Changepoint.ShiftIsDetected` | ml/monitoring/changepoint.py:82-93 | n consecutive values of at least delta, or of at most -delta, with n * (delta - k) > h always contain a signal |
| `Changepoint.CUSUMDetector.Observe` | ml/monitoring/changepoint.py:74-94 | over any stream: the baseline is the one supplied if it has a mean, else the fit of just the warm-up values, for good; every value from the last of the warm-up on is standardised by it; alerts, their contents and the reset |
| `Changepoint.StandardisedStep` | ml/monitoring/changepoint.py:74-80 | one more value keeps this: which values have been standardised, and by which baseline |
| `Ed25519.MulAdd` | packages/rulepack-schema/ed25519_verify.py:54-61 | multiples add in any commutative group |
| `Ed25519.MulMul` | packages/rulepack-schema/ed25519_verify.py:54-61 | multiples of multiples multiply |
| `Ed25519.ScalarMult` | packages/rulepack-schema/ed25519_verify.py:54-61 | double-and-add computes e * P for every e >= 0 |
| `Ed25519.LERoundTrip` | packages/rulepack-schema/ed25519_verify.py:121-133 | little-endian encoding in enough bytes is undone |
| `Ed25519.LastIsHighest` | packages/rulepack-schema/ed25519_verify.py:91-92 | byte i of a little-endian integer stands for 256^i |
| `Ed25519.OrderIs` | packages/rulepack-schema/ed25519_verify.py:26 | the order is 2^252 + 27742317777372353535851937790883648493 |
| `Ed25519.ClampShape` | packages/rulepack-schema/ed25519_verify.py:99-101 | clamping gives a multiple of 8 in [2^254, 2^255) |
| `Ed25519.ScalarMod` | packages/rulepack-schema/ed25519_verify.py:117-120 | scalars act on the base point modulo the order |
| `Ed25519.SignatureEquation` | packages/rulepack-schema/ed25519_verify.py:117-140 | [S]B = R + [k]A for the S that signing computes |
| `Ed25519.SignThenVerify` | packages/rulepack-schema/ed25519_verify.py:113-140 | for every 32-byte seed and every message the signature made is accepted |
| `Ed25519.AcceptedExactly` | packages/rulepack-schema/ed25519_verify.py:124-140 | under an honest key and an honest R exactly one S is accepted: r plus a times the hash of R, key and message, modulo the order |
| `Ed25519.SignatureIsUnique` | packages/rulepack-schema/ed25519_verify.py:134-140 | two accepted signatures of one message under one key with the same R are equal |
| `Ed25519.AcceptedShape` | packages/rulepack-schema/ed25519_verify.py:124-133 | only 64-byte signatures with an S below the order and points that decode are accepted, under 32-byte keys |
| `Ed25519.SignExactly` | packages/rulepack-schema/ed25519_verify.py:95-121 | what signing computes: secret from the first half of the digest of the seed, nonce from the second half and the message, S from both and the hash of R, key and message; no signature for a seed of another length |
| `Ed25519.BoundToMessage` | packages/rulepack-schema/ed25519_verify.py:113-140 | a signature of one message is accepted for another if and only if the two hashes give the same multiple of the secret modulo the order |
| `Saga.Saga.Run` | packages/temporal-sdkx/sdkx.go:138-166 | the loop: result, final world and every call made, as specified |
| `Saga.Saga.Compensate` | packages/temporal-sdkx/sdkx.go:153-160 | the backward loop: compensations with their own outputs, errors collected, none skipped after an error |
| `Saga.StopsAtFirstFailure` | packages/temporal-sdkx/sdkx.go:146-161 | a run stops at the first failing action, the ones before having succeeded on the world their predecessor left |
| `Saga.FailedRunCalls` | packages/temporal-sdkx/sdkx.go:146-161 | failure at step i: actions 0..i once each in order, then exactly the non-nil compensations of completed steps, each once with its own output, in reverse |
| `Saga.FailedRunReports` | packages/temporal-sdkx/sdkx.go:146-161 | a failed run reports the error of the failing action, and exactly the compensations that failed, each with the error it gave on the world it found, in the order of their calls |
| `Saga.Atomic` | packages/temporal-sdkx/sdkx.go:138-166 | if compensations undo what an observer sees, uncompensated and failing actions change nothing seen, then every run completes all steps or leaves the observer's view as at the start, for any view |
| `Saga.ExecuteActivity` | packages/temporal-sdkx/sdkx.go:87-114 | attempts until the first success, cancellation or the limit (at least one attempt), and exactly which attempt ends it |
| `Consents.Server.Create` | services/consent/main.go:172-225 | the create handler, branch by branch |
| `Consents.Server.FindValidConsent` | services/consent/check.go:30-49 | the lazy-expiry loop: store after, record found |
| `Consents.Server.Check` | services/consent/check.go:54-97 | the check handler |
| `Consents.Server.ListBySubject` | services/consent/main.go:227-255 | the listing loop: store after, records returned |
| `Consents.Server.Revoke` | services/consent/main.go:257-285 | the revoke handler |
| `Consents.Server.Renew` | services/consent/main.go:287-324 | the renew handler |
| `Consents.Server.DsrErasure` | services/consent/dsr.go:127-182 | the erasure handler, with legal holds, their failing listing and failing writes |
| `Consents.FindsFirstValid` | services/consent/check.go:36-48 | the record found is the first valid one of the listing; none is found exactly when none is valid |
| `Consents.CheckExactly` | services/consent/check.go:51-97 | refused for want of consent if and only if no stored record is active, granted, unexpired, of that subject and purpose; allowed only on such a record with the asserted basis; without an asserted basis allowed if and only if one exists |
| `Consents.BasisExactly` | services/consent/check.go:78-88 | with an asserted basis, allowed if and only if the first valid record has it |
| `Consents.CreateExactly` | services/consent/main.go:172-225 | a create is refused for a malformed request, for another subject unless by an admin, on a failing write, and otherwise stores exactly the record asked for and issues one receipt |
| `Consents.CheckAnswers` | services/consent/check.go:54-97 | malformed exactly without subject or purpose or with an unknown basis; otherwise it stops at the first valid record, answers on it, and stores the expiry of what it passed over |
| `Consents.ListingExactly` | services/consent/main.go:227-255 | refused to all but the subject and admins; else exactly the records of the subject in order, overdue ones as expired, and their expiry is stored |
| `Consents.RevokeExactly` | services/consent/main.go:257-285 | when a revocation is refused, and why; otherwise the record with just these changes and one receipt |
| `Consents.RenewExactly` | services/consent/main.go:287-324 | the same for a renewal |
| `Consents.ErasureExactly` | services/consent/dsr.go:127-182 | when an erasure is refused, and why; otherwise exactly the records of the subject lose subject, metadata and channel and active ones are revoked, the count is right, and it is logged; no receipts |
| `Consents.StepKeeps` | services/consent/main.go:172-324 | every operation keeps: records under their id, granted exactly until revoked, a record not revoked last granted or renewed; and keeps identity, purpose, basis and revocation of every record |
| `Consents.Authority` | services/consent/main.go:257-324 | activation only by renewal of an expired record by its subject or an admin; revocation only by them or by an authorised erasure for which no hold was found; expiry only when due; a subject changes only by erasure |
| `Consents.HoldRefusesExactly` | services/consent/dsr.go:108-139 | an authorised erasure with a hold on file is refused if and only if the holds can be listed; otherwise it goes through as if there were none |
| `Consents.RunKeeps` | services/consent/main.go:172-324 | over any run the invariant holds and no revoked record changes status again |
| `Consents.RevokedNeverAllowed` | services/consent/check.go:5-9 | from a revocation on no check is allowed on that record |
| `Consents.ErasureForgets` | services/consent/dsr.go:148-165 | a successful erasure leaves no record under the subject |
| `Consents.ErasedUntilGranted` | services/consent/dsr.go:127-182 | after it no check for the subject is allowed in any run until something is granted to the subject afresh |
| `Consents.ErasedForGood` | services/consent/dsr.go:152-159 | an erased record is revoked for good if and only if it was not already marked expired |
| `Consents.ErasedExpiredIsRenewable` | services/consent/dsr.go:152-159 | every record erased while marked expired can be made active again by an admin, under the anonymous subject |
| `Consents.ErasedExpiredIsRenewed` | services/consent/dsr.go:152-159 | and a concrete run in which that happens |
| `Consents.TextOrderIsTimeOrder` | services/consent/check.go:40 | on instants written in one zone and layout, comparing the texts compares the instants |
| `StepUp.MemStore.ConsumeTicket` | packages/stepup/store.go:82-97 | the sweep removes exactly the entries past their instant; replay exactly when a live entry is unexpired |
| `StepUp.VerifyTicket` | packages/stepup/ticket.go:82-114 | the chain of checks, in order, then the store |
| `StepUp.StoreHolds` | packages/stepup/store.go:81-97 | over any history with a nondecreasing clock the store holds an id only if it was asked about, with its expiry, and surely until its expiry |
| `StepUp.OutcomeExactly` | packages/stepup/ticket.go:82-114 | a call that passes the checks succeeds if and only if no earlier call on the ticket passed them or the store's clock has reached its expiry |
| `StepUp.AnswersExactly` | packages/stepup/ticket.go:82-114 | over any history, each refusal has its cause: malformed, bad signature, out of the time window, another actor, action or payload; only a call that fits reaches the store |
| `StepUp.AcceptedExactly` | packages/stepup/ticket.go:82-114 | exactly the calls with a signed ticket for their actor, action and payload, in time, are accepted that no earlier such call presented, or with the store's clock at the expiry or past it |
| `StepUp.SingleUse` | packages/stepup/store.go:32-34 | a second success is never before the expiry instant |
| `StepUp.SecondUseOnlyInLastSecond` | packages/stepup/ticket.go:104 | with one clock reading per call, a second success happens if and only if it falls in the expiry second |
| `StepUp.UsedTwiceAtExpiry` | packages/stepup/store.go:92 | a ticket accepted twice at its expiry |
| `StepUp.MintedPasses` | packages/stepup/ticket.go:59-71 | a minted ticket passes the checks exactly for the actor, action and payload it was minted for, from 30 seconds before minting to the end of its expiry second |
| `Sessions.App.HandleLogin` | services/admin-api/handlers_admin.go:31-68 | a token with iat strictly above the epoch, for active users with the right password only |
| `Sessions.App.HandleUserUpdate` | services/admin-api/handlers_admin.go:333-403 | the new user table: fields changed, epoch raised exactly on a password, role or status change |
| `Sessions.App.HandleUserDelete` | services/admin-api/handlers_admin.go:405-424 | the user with the id is removed |
| `Sessions.App.HandleUserCreate` | services/admin-api/handlers_admin.go:289-331 | a taken email is refused; else the user is stored with defaults |
| `Sessions.App.LocalSessionValid` | services/admin-api/auth.go:137-156 | valid exactly for an existing active user with an epoch below the iat |
| `Sessions.StepInv` | services/admin-api/handlers_admin.go:31-424 | ids stay unique and unreused; no iat is in the future, except one above the epoch |
| `Sessions.DeadStays` | services/admin-api/auth.go:137-156 | a token rejected by epoch or deletion stays rejected under every handler |
| `Sessions.RevokedForGood` | services/admin-api/auth.go:137-156 | over any run in which the bumps of the token's user come later than the epoch they replace, every token issued before a change of that user's password, roles or status, or its deletion, is rejected in all later states |
| `Sessions.FreshIsAccepted` | services/admin-api/handlers_admin.go:52-59 | a token just issued to an active user is accepted, also in the second of a bump |
| `Sessions.TokensExactly` | services/admin-api/handlers_admin.go:31-68 | a token is added exactly by a login with the right password on an active user: with the id, roles and tenant of the user, for twelve hours, its iat the later of now and the second after the epoch |
| `Sessions.TokensAreGiven` | services/admin-api/handlers_admin.go:31-68 | over any run every new token was given in this way |
| `Sessions.BumpSurvivesExactly` | services/admin-api/handlers_admin.go:388-390 | in any invariant state an accepted token survives a bump if and only if the user stays active and the bump comes before its iat, which is then the second after an epoch not earlier than the bump |
| `Sessions.LoginThenBumpExactly` | services/admin-api/handlers_admin.go:388-390 | after a login, the token survives the next bump if and only if the bump is not later than the epoch it replaces |
| `Sessions.UpdateExactly` | services/admin-api/handlers_admin.go:333-403 | what an update leaves: nothing without the current password; else the given values, the epoch raised exactly for a change of password, roles or status, nobody else touched |
| `Sessions.CreatedExactly` | services/admin-api/handlers_admin.go:289-331 | a new user is active and an operator unless something else was asked for; a taken email changes nothing |
| `Sessions.UnbumpedKeepsSessions` | services/admin-api/handlers_admin.go:368-391 | an update without a change of password, roles or status ends no session and starts none, for every token |
| `Sessions.TwoBumpsInOneSecond` | services/admin-api/handlers_admin.go:388-390 | two changes in one second with a login between: the token survives the loss of its role |
| `Sessions.AcceptedRolesAreCurrent` | services/admin-api/handlers_admin.go:372-390 | over any such run an accepted token carries the current roles of an active user |
| `Sessions.TenantStaleExactly` | services/admin-api/handlers_admin.go:380-390 | an update leaves an accepted token with an outdated tenant if and only if it moves the user and does not bump |
| `Sessions.AcceptedTenantIsCurrent` | services/admin-api/handlers_admin.go:380-390 | over any such run in which every move of the user also bumps, an accepted token carries the current tenant |
| `Sessions.TenantMayBeStale` | services/admin-api/handlers_admin.go:380-382 | a concrete move without a bump, after which the token names the old tenant |
| `Sessions.LoginRaceExactly` | services/admin-api/handlers_admin.go:36-59 | when a bump falls between reading the user and issuing the token and the user stays active, the token is accepted if and only if its iat is after the second of the bump; it has the roles read |
| `Sessions.LoginRaceKeepsOldRoles` | services/admin-api/handlers_admin.go:36-59 | so after a role change at an earlier second than the issue the old roles are accepted |
| `AuditQueue.App.ForwardAudit` | services/admin-api/handlers_data.go:211-221 | queued at the end exactly on failure |
| `AuditQueue.App.FlushAuditQueue` | services/admin-api/handlers_data.go:283-304 | one flush: what failed again stays in order, the rest is delivered in order |
| `AuditQueue.StepInv` | services/admin-api/handlers_data.go:211-304 | every atomic step keeps: retried-and-failed, untried and queue together are in the order of appending, and every failed event is held by its forwarder, waiting or delivered, once |
| `AuditQueue.NothingLost` | services/admin-api/handlers_data.go:211-304 | so over every interleaving of forwards with the one flush loop, from an empty queue, no failed event is lost or duplicated, and waiting ones are retried in the order in which they were appended |
| `AuditQueue.AppendInFailureOrderExactly` | services/admin-api/handlers_data.go:215-220 | an append keeps the waiting events in failure order if and only if its event failed after all of them |
| `AuditQueue.LaterFailureMayBeRetriedFirst` | services/admin-api/handlers_data.go:215-220 | two forwards that fail and reach the lock in the other order are retried in the other order |
| `AuditQueue.WholeFlush` | services/admin-api/handlers_data.go:283-304 | a whole flush amid forwards: what failed again, then what arrived meanwhile |

## Left out

- YAML anchors and aliases: documents are trees without sharing; an anchored mapping inside a sequence is printed on the dash line and nested inline sequences drop anchors (packages/rulepack-schema/canon_yaml.go:236-247, 281-300).
- Parsing by yaml.v3: the model starts from the node tree and reads canonical text with a reader for the emitted subset. The decoder's values of numbers and timestamps, its own resolver (which reads plain scalars such as `1e3` or `0o7` unlike the expressions the emitter uses) and what it makes of text outside the subset are parameters.
- PackVerify.OwnPackBinds: within the subset the decoder is taken to read YAML as the reader does; its limits on size and nesting are not modelled.
- CanonScalar.ResolvesAgree: nothing is said of yaml.v3's own resolver.
- CanonDocument.Canonicity: two spellings of one number are different literals, so they give different texts although a decoder may give one value.
- Byte equality with PyYAML: PyYAML is not part of this model.
- CanonTree.CanonIsCanonical: number and timestamp literals are taken to be plain text of the resolver's language for their tag, which is what artifacts written by the signing ceremony hold.
- Pairs with equal keys in one mapping: the round trip is stated for trees with distinct keys, and the unstable order of Go's sort on equal keys is not modelled.
- UTF-8: texts are sequences of Unicode characters; invalid byte sequences are not modelled.
- ParseSigningKeys and Pack field validation: easy members.
- Go's distinction of nil and empty maps in the binding comparison.
- RelationChecker.CheckExact: where some chain has more than 17 distinct goals only soundness is proved; completeness can fail there. LoadTuplesFile is input.
- Audit cases: case identifiers, ring identifiers, evidence, severity and the final sort.
- EntityIndex.LookupSeesReturnedWrites: a store write is one atomic step that installs any new content; what Put, Delete and Update write is not distinguished, and a failing write that changes nothing is the case of an unchanged content.
- Changepoint.CUSUMDetector.Observe: the fit of the baseline is a parameter, and the alert's text is left out.
- Floating point: Drift, Changepoint and Geo are over the reals, so rounding is not modelled.
- Engine.attribute, haversine distance, histograms, population stability, BOCPD, sequences of the drift monitor.
- Thresholds.ThresholdTracker.Observe: event payloads other than counts and amounts; the clock is read before the mutex, so histories are in lock order with the clock assumed not to run backwards.
- Ed25519.SignThenVerify: the group laws of the curve, the order of the base point, the point codec and SHA-512 are hypotheses of the scheme; the libsodium path is not modelled.
- Saga runners' history, spans, retry delays and activity registry.
- Consents.StepKeeps: each handler is one atomic step; receipt digests and seals, request decoding, export, access-log reading and breaches are left out. Receipts are those issued, whether or not persisting them succeeds.
- Consents.BasisExactly: with an asserted basis the check is not complete over all valid records, because the code compares the first one only.
- Consents.TextOrderIsTimeOrder: expiry texts in another zone or layout than the clock's are compared as text by the code, which need not be the order of the instants.
- Consents.ErasedUntilGranted: no anonymous subject equals the subject (the digest is a parameter).
- Sessions.App.HandleUserCreate: without the field checks and the password, which a create request cannot carry (outside development mode the handler therefore always refuses).
- Step-up: enrolment records, TOTP, recovery codes; the token codec and its HMAC are a parameter, and ticket ids are taken to be unique per minted ticket.
- Sessions.RevokedForGood: logins are atomic (the race is stated as a lemma of its own) and each bump of the token's user comes later than the epoch it replaces; token signatures, expiry, Keycloak tokens and the development role header are left out.
- AuditQueue.NothingLost: one flush loop, and no restart of the process, which would empty the queue.
- HTTP decoding and responses, routing, telemetry, databases, brokers and the admin console: input, output and foreign code.
