# Verified model of Rhizome's domain logic

Rhizome keeps a project's issues, relations, reservations and workflow policies, and serves them to several
clients at once. This project models the parts of it where a small mistake would be silent: the bytes that
idempotency hashes are taken over, the graph a client is shown, the decision whether two reservations conflict,
the lifetime of opened projects, dependency cycles, imported event cursors, and workflow gates. It states what
each of them promises and proves it for every input, every budget or every interleaving.

Check everything with `dafny verify dfyconfig.toml` (Dafny 4.11).

## How the model is laid out

| file | what it holds |
|---|---|
| `Ordering.dfy` | byte-wise order, comparison keys, sorting by contract |
| `DecimalNumbers.dfy`, `NumberNotation.dfy` | JSON numbers (RFC 8259, section 6): grammar, exact value, canonical spelling; which notation a value gets |
| `Utf8.dfy`, `JsonEncoding.dfy` | the bounded writer, string escaping (RFC 8259, section 7), the encoder |
| `JsonTokens.dfy`, `JsonDecoding.dfy` | a token reader in the manner of Go's `json.Decoder`, and decoding with its limits |
| `CodePoints.dfy`, `JsonGrammar.dfy` | UTF-8 by its bit layout, and RFC 8259 as a relation between texts and values, both without the reader |
| `JsonStrings.dfy`, `JsonReading.dfy`, `JsonAccepting.dfy` | strings; every text of the grammar is read; nothing else is |
| `JsonSpelling.dfy`, `AcceptedDocuments.dfy`, `CanonicalBytes.dfy` | encodings as texts; exactly which inputs are accepted; exactly which bytes are returned |
| `Canonicalization.dfy`, `Canonicalizer.dfy` | what canonical bytes mean; the decoding methods and `encodeRaw` |
| `IssueGraph.dfy`, `GraphBuilder.dfy` | the graph traversal as state functions, and as the program runs it |
| `GraphWellFormed.dfy`, `GraphDistance.dfy`, `GraphReach.dfy` | invariants; one root's search and distance; all roots together |
| `GraphMeaning.dfy` | what a caller may read off a result, in terms of statuses, flags and distance |
| `GraphStorage.dfy` | what storage hands to the traversal under a budget, and the answers a caller gets |
| `GraphBudget.dfy`, `GraphTruncation.dfy`, `GraphReasons.dfy` | two budgets compared; what a truncated answer means; which reason it gives |
| `Reservations.dfy`, `ReservationOverlap.dfy` | normalization and keys; languages and overlap |
| `ReservationInputs.dfy`, `ReservationMeaning.dfy` | what is accepted and refused, read off the input; overlap in terms of callers' paths |
| `ReservationKeys.dfy`, `ReservationRequest.dfy` | when keys and languages agree; batches |
| `RouterModel.dfy`, `RouterSafety.dfy`, `RouterProgram.dfy` | the router as a state machine; its runs; its locked regions as methods |
| `RouterEviction.dfy` | what leaves the map, over every run and in terms of what callers did |
| `BlocksCycles.dfy`, `EventCursors.dfy` | dependency cycles; event-cursor remapping |
| `WorkflowPolicies.dfy`, `WorkflowGates.dfy` | the effective requirement set; gate evaluation and snapshots |
| `WorkflowMeaning.dfy` | labels and order in terms of the inputs |

Code that updates fields in place is a class whose methods are proved against functions of its state; the results
are lemmas about those functions. Code that only computes is functions. Loops of the source are loops here.

Conventions. Go strings are byte sequences, so in the JSON files a Dafny `string` holds one character per byte.
Reservation paths and labels are treated as sequences of runes. Integers are unbounded; where the source converts
to a machine integer (the point position of a canonical number) the range is asserted. `sort` is used through its
contract where elements cannot tie: canonical objects, graph edges, event rows, unambiguous requirement sets and
snapshot sources come out the same whichever algorithm sorts them. Where elements can tie, the model fixes one order:
parallel edges to one neighbour, and requirements that share policy and key. Hashes are abstract functions.

## Where the code and its documentation differ

- `internal/domain/graph.go:468-471` and `docs/03-mcp-tools.md:1619-1621` say that `truncated` means exactly that a
  larger budget would have kept more, and that unattached finished issues never set it. The flag is never missing, but
  it can be raised without cause: `GraphTruncation.TruncatedWithoutCause` gives a project of two issues, and
  `GraphTruncation.TruncatedMeaning` says exactly when, for every project, traversal and budget. The second pass
  raises the flag before it asks whether the next finished issue is attached to anything. "A larger budget" is what a
  caller can ask for: storage counts all entry points and lists as many as the budget (`GraphStorage.Supply`), so it
  lists more for the larger one. For one project and traversal the flag is without cause under one budget at most: the
  number of nodes the graph has when no budget limits it.
- `docs/03-mcp-tools.md:1619` says that `node_limit` always wins in practice, because every entry point is a traversal
  root. Where that premise holds, so does the claim (`GraphReasons.RootEntryPointsWin`). A claimable child of an epic
  is no root: `GraphReasons.EntryPointLimitGiven` is an epic with two ready tasks, asked for at depth 0 with a budget
  of 1, and the answer is `entry_point_limit`. `GraphReasons.NodeLimitWinsIff` says exactly for which projects
  `node_limit` wins under every budget.
- `docs/03-mcp-tools.md:1615` gives two reasons why an entry point may be absent from the nodes: truncation, and lying
  outside the depth of every root. Read as the only reasons, they say that an untruncated planning graph holds every
  open issue near some root. `GraphReach.NearButMissing` gives two roots and three issues for which it misses an issue
  one step from a root: the second root was reached from the first at the depth limit and is not searched from again.
  `GraphReach.GraphExact` says what an untruncated graph holds; `GraphReach.RootsApartReachAll` gives a condition on
  the roots under which nothing near one is missing, and `GraphReach.NearIsReachedIff` exactly when, in terms of the
  nodes at which the depth limit stops a search. With one root nothing ever is.
- A normalized path is presented as a canonical form, but `./C:` is accepted and its display `C:` is refused.
  `Reservations.PathRoundTrip` says exactly when the display normalizes again, for every accepted path.
- Comparison keys are not quite canonical: the globs `**` and `*/**` match the same paths under different keys
  (`ReservationKeys.DifferentKeysSameLanguage`). `ReservationKeys.KeyExact` proves that this is the only pair.
- `Key` is documented as safe for equality and deduplication (`internal/domain/reservation.go:75-78`). It is so within a
  kind only: the file `x` and the logical resource `x` of the namespace `file` share a key
  (`ReservationKeys.SameKeyOtherKind`). `ReservationKeys.KeysAcrossKinds` says exactly when that happens; batches compare
  kind and key together.
- `Router.Close` promises to drain and close every project. In every run completion stays reachable exactly until a
  cleanup finds an entry in use (`RouterSafety.CompletionLost`), and then a maintenance pin took an entry between the
  closer's two locked regions (`RouterSafety.BlockedByPin`). `RouterSafety.PinDefeatsClose` is such a run.
  Safety is unaffected.
- Event cursors are said to keep "before" and "after". They do so for every cursor exactly when destination IDs
  are positive and grow with source IDs (`EventCursors.SidesKeptIffIncreasing`); what was accounted for always
  stays accounted for.

## Model

| member | source | states |
|---|---|---|
| `DecimalNumbers.GrammarIsExact` | internal/normalization/normalization.go:386-410 | a text is accepted as a JSON number exactly when the RFC 8259 grammar generates it, and its sign, digits and exponent are unique |
| `DecimalNumbers.CanonicalKeepsValue` | internal/normalization/normalization.go:411-443 | the canonical numeral denotes exactly the same number, for any digit count and any exponent |
| `DecimalNumbers.CanonicalIffSameValue` | internal/normalization/normalization.go:385-444 | two numerals have one canonical spelling if and only if they denote one number, so -0 and 0 agree |
| `DecimalNumbers.CanonicalTextCorrect` | internal/normalization/normalization.go:385-444 | canonical spellings are grammatical, value-preserving, unique per value, and fixed points |
| `DecimalNumbers.SignificantUnique` | internal/normalization/normalization.go:411-418 | trimmed digits and their power of ten are determined by the value |
| `DecimalNumbers.ReadParts` | internal/normalization/normalization.go:394-410 | cutting the text at the exponent mark and the point yields the numeral's digits, fraction length and exponent |
| `DecimalNumbers.Render` | internal/normalization/normalization.go:419-439 | the branch by scientific exponent spells the canonical layout; in the plain branch the point stays within -5 and 21 and every repeat count is non-negative |
| `DecimalNumbers.CanonicalNumber` | internal/normalization/normalization.go:385-444 | the program's text-to-text function: an error exactly for texts that are no number, and otherwise the one text that `NumberNotation.CanonicalExactly` describes without the layout: plain in [1e-6, 1e21), scientific outside |
| `NumberNotation.CanonicalShaped` | internal/normalization/normalization.go:419-439 | the spelling has no exponent exactly when the value is 0 or its magnitude lies from 1e-6 to below 1e21; no superfluous zero on either side; with an exponent, one nonzero digit before the point, no plus sign and no leading zero |
| `NumberNotation.ShapeFixed` | internal/normalization/normalization.go:411-439 | a numeral of that shape is already canonical |
| `NumberNotation.CanonicalExactly` | internal/normalization/normalization.go:385-444 | a text is the canonical spelling of a number if and only if it spells its value in the shape that value calls for |
| `NumberNotation.NotANumber` | internal/normalization/normalization.go:386-410 | a text has no canonical spelling exactly when the grammar does not generate it |
| `JsonEncoding.EscapeConcat` | internal/normalization/normalization.go:531-563 | escaping distributes over concatenation, which is what lets the encoder copy verbatim chunks |
| `JsonEncoding.EscapeValid` | internal/normalization/normalization.go:526-568 | escaping keeps UTF-8 validity |
| `JsonEncoding.RuneVerbatim` | internal/normalization/normalization.go:531-555 | the bytes of a multi-byte rune never need escaping, so stepping rune by rune misses no byte |
| `JsonEncoding.ChunkThenEscape` | internal/normalization/normalization.go:553-563 | an unescaped chunk, one escape and the escaped remainder make up the escaped string |
| `JsonEncoding.BoundedWriter.constructor` | internal/normalization/normalization.go:455-458 | a writer starts empty with its bound |
| `JsonEncoding.BoundedWriter.WriteString` | internal/normalization/normalization.go:460-466 | a write succeeds exactly when it fits and appends exactly its text; a refused write leaves the buffer alone |
| `JsonEncoding.EncodeString` | internal/normalization/normalization.go:526-568 | the chunk-copying loop writes the quoted per-byte escape of the string, succeeding exactly when all of it fits |
| `JsonEncoding.WriteEscaped` | internal/normalization/normalization.go:556-562 | one escaping turn writes the pending chunk and the escape, and what remains is the escaped rest; it fails only when the whole text cannot fit |
| `JsonEncoding.WriteLast` | internal/normalization/normalization.go:564-567 | the last chunk and the closing quote complete the quoted escape, or the whole text cannot fit |
| `JsonEncoding.WriteChunk` | internal/normalization/normalization.go:556-567 | two consecutive writes of a longer text fail only when the whole text cannot fit |
| `JsonEncoding.EncodeCanonical` | internal/normalization/normalization.go:472-524 | the bounded encoder succeeds exactly when the whole pure encoding fits, and then appends it byte for byte |
| `JsonEncoding.EncodeArray` | internal/normalization/normalization.go:485-499 | the same for an array, element by element |
| `JsonEncoding.EncodeObject` | internal/normalization/normalization.go:500-520 | the same for an object, member by member |
| `JsonEncoding.EncodeMember` | internal/normalization/normalization.go:510-518 | the same for one key, colon and value |
| `JsonTokens.AfterSpelledNumber` | internal/normalization/normalization.go:277-310 | a spelled number in front of a delimiter is read back whole and nothing more |
| `CodePoints.EncodeSpells` | internal/normalization/normalization.go:294-308 | the bytes written for an escaped code point are the UTF-8 sequence whose payload bits spell that code point |
| `CodePoints.ValidExact` | internal/normalization/normalization.go:274-276 | text passes the UTF-8 check exactly when it spells some sequence of Unicode scalar values |
| `CodePoints.SpellingUnique` | internal/normalization/normalization.go:274-276 | equal code points mean equal bytes |
| `JsonStrings.ReadPiece` | internal/normalization/normalization.go:294-308 | every way RFC 8259 gives of writing a code point (verbatim, short escape, `\uXXXX` in either case, surrogate pair) is read whole as the bytes of that code point; a lone surrogate as U+FFFD |
| `JsonStrings.ReadBody` | internal/normalization/normalization.go:294-308 | every spelling of a string in front of a closing quote is read as the UTF-8 of its code points |
| `JsonStrings.FoundBody` | internal/normalization/normalization.go:294-308 | whatever is read up to a closing quote is such a spelling of the result |
| `JsonTokens.ReadEscaped` | internal/normalization/normalization.go:526-568 | escaped text in front of a quote is read back as the text it came from |
| `JsonDecoding.DecodedWithin` | internal/normalization/normalization.go:294-383 | an accepted document is within depth, array and object limits, has distinct keys, grammatical numbers and valid NUL-free text |
| `JsonSpelling.ReadBack` | internal/normalization/normalization.go:294-383 | decoding inverts encoding: in front of nothing or a delimiter it returns exactly the value and leaves exactly the rest |
| `JsonReading.ReadValue` | internal/normalization/normalization.go:294-383 | every text that RFC 8259 gives for a value within the limits, with any white space, is decoded as that value and leaves exactly the rest |
| `JsonAccepting.ValueFound` | internal/normalization/normalization.go:294-383 | whatever is decoded at the front of the input is a text of that value by the grammar |
| `JsonAccepting.ListFound` | internal/normalization/normalization.go:367-383 | the same for the rest of an array: elements, separators and the closing bracket |
| `JsonAccepting.RecordFound` | internal/normalization/normalization.go:332-365 | the same for the rest of an object |
| `JsonSpelling.EncodeDenotes` | internal/normalization/normalization.go:472-568 | the encoding of a document is one of its texts by the grammar |
| `AcceptedDocuments.CheckExact` | internal/normalization/normalization.go:300-308 | a string passes the checks exactly when it spells scalar values none of which is NUL |
| `AcceptedDocuments.AcceptedExactly` | internal/normalization/normalization.go:270-383 | for every input and every value: the input is accepted as that value if and only if it is a text of it by the grammar, white space around it included, within the input, depth, array and object limits, with distinct keys and clean strings |
| `Canonicalization.CanonicalMembers` | internal/normalization/normalization.go:358-364 | a canonical object's members are strictly sorted by key and are exactly the canonical members |
| `Canonicalization.CanonIffSameValue` | internal/normalization/normalization.go:294-383 | canonical forms are equal if and only if the values are: numbers by exact value, objects as mappings, at every depth |
| `Canonicalization.CanonFixed` | internal/normalization/normalization.go:294-383 | canonical documents stay within the limits and are their own canonical form |
| `Canonicalization.DocumentWithin` | internal/normalization/normalization.go:270-285 | whatever the document reader accepts is within the limits |
| `Canonicalization.EncodingRoundTrip` | internal/normalization/normalization.go:472-568 | reading the encoding of a document within limits returns that document and consumes everything |
| `Canonicalization.EncodingInjective` | internal/normalization/normalization.go:472-568 | equal bytes mean equal documents |
| `Canonicalization.EncodingValid` | internal/normalization/normalization.go:472-568 | encodings are valid UTF-8 |
| `Canonicalization.CanonicalizationIdempotent` | internal/normalization/normalization.go:270-292 | canonical bytes are their own canonical form, refused only when longer than the input bound |
| `Canonicalization.SameBytesIffSameValue` | internal/normalization/normalization.go:102-128 | two accepted inputs have the same canonical bytes if and only if they denote the same value, which is what hashing them relies on |
| `Canonicalization.WithinLimitsAccepted` | internal/normalization/normalization.go:270-292 | every document within the limits is accepted, and canonicalizes exactly when its canonical encoding fits the output bound |
| `Ordering.BeforeExact` | internal/normalization/normalization.go:358-364 | one string comes before another exactly when it is a proper prefix or smaller at the first difference |
| `CanonicalBytes.EncodedCanonical` | internal/normalization/normalization.go:472-568 | what is written is canonical: no white space, nothing escaped that need not be, numbers in canonical notation, members in byte order of their keys |
| `CanonicalBytes.CanonicalUnique` | internal/normalization/normalization.go:472-568 | a value has one canonical text |
| `CanonicalBytes.EncodeRawExactly` | internal/normalization/normalization.go:270-292 | for every input and every byte string: the operation returns these bytes if and only if the input is accepted for some value, they are that value's canonical text, and they fit |
| `CanonicalBytes.RefusedExactly` | internal/normalization/normalization.go:270-292 | the input bound and the output bound are reported exactly when they are exceeded |
| `Canonicalizer.Decoder.Token` | internal/normalization/normalization.go:277-283 | one token is taken and the decoder moves behind it; on an error it stays |
| `Canonicalizer.DecodeValue` | internal/normalization/normalization.go:294-330 | decoding with the object and array methods returns the canonical form of the document read, with the same errors |
| `Canonicalizer.DecodeArray` | internal/normalization/normalization.go:367-383 | the array loop agrees with the document reader, limits and errors included |
| `Canonicalizer.DecodeObject` | internal/normalization/normalization.go:332-365 | the object loop agrees with the document reader; duplicates are refused before their value is read; members come out sorted |
| `Canonicalizer.EncodeRawDocument` | internal/normalization/normalization.go:270-292 | the program's bytes-to-bytes function: it returns given bytes if and only if they are the canonical text, within the output bound, of the value the grammar gives the input, within the limits |
| `GraphWellFormed.NeighborsExact` | internal/domain/graph.go:490-516 | the neighbours of a node are exactly where its allowed edges lead: direction respected, `related_to` both ways |
| `GraphWellFormed.NeighborsSorted` | internal/domain/graph.go:517-527 | neighbours come ordered by edge type, then issue number, then ID, compared component by component |
| `GraphWellFormed.EnvExact` | internal/domain/graph.go:218-245 | the traversal reads the latest node of each ID and the edges of a followed type, or `contains` under the hierarchy flag, between known nodes |
| `IssueGraph.StepWork` | internal/domain/graph.go:335-362 | every turn of the queue loop decreases a measure, because no node is enqueued twice |
| `GraphWellFormed.PassOneKeeps` | internal/domain/graph.go:325-363 | the first pass keeps nodes distinct, known, includable and within budget, edges distinct with both ends retained, deferred nodes distinct and not retained |
| `GraphWellFormed.FinalWellFormed` | internal/domain/graph.go:325-410 | the same of the final state; finished work other than the requested root is kept only if attached to the first pass, and only if that pass dropped nothing |
| `GraphBuilder.ResultWellFormed` | internal/domain/graph.go:412-481 | results hold distinct snapshot nodes within budget, strictly ordered allowed edges between them, and no more entry points than the budget |
| `GraphMeaning.ResultShown` | internal/domain/graph.go:261-287 | whatever the roots and the budget: every node of a result is the issue asked for, or is neither done nor cancelled unless finished work is included, and not in review if that is left out; every edge is of a followed type and joins two nodes of the result; `node_limit` only when full, and some limit whenever more entry points are counted than fit |
| `GraphMeaning.NodesAreRetained` | internal/domain/graph.go:413-421 | the nodes are the latest snapshot nodes of the retained IDs |
| `GraphMeaning.ResultNodesExact` | internal/domain/graph.go:288-410 | untruncated, for any roots: exactly the open work the searches meet, and the finished work that may be shown and is joined to some of it |
| `GraphMeaning.ResultExact` | internal/domain/graph.go:288-410 | untruncated, with one root: exactly the nodes and edges that distance, statuses and flags prescribe |
| `GraphMeaning.ResultNearestFirst` | internal/domain/graph.go:314-410 | with one root, under any budget: open issues nearest first, and none is missing that is nearer than one shown |
| `GraphMeaning.EdgesInOrder` | internal/domain/graph.go:537-555 | edges come by type, then number and ID of the source, then number and ID of the target |
| `GraphMeaning.ListsInOrder` | internal/domain/graph.go:433-465 | claimable issues of a rooted graph and blocking issues of any graph come in the order of its nodes |
| `GraphBuilder.EdgesComparable` | internal/domain/graph.go:537-555 | distinct edges have distinct sort keys, so the edge order is the only possible one |
| `GraphBuilder.EntryPointsExact` | internal/domain/graph.go:413-451 | rooted graphs name exactly their claimable open nodes; planning graphs exactly the stored entry points, or without stored ones exactly those of the whole snapshot that are not excluded; cut off only at the budget, and then to a prefix as long as it |
| `GraphBuilder.EntryPointsIgnoreBudget` | internal/domain/graph.go:433-451 | the entry point count does not depend on the budget, and a smaller budget lists a prefix |
| `GraphBuilder.BlockingNodesExact` | internal/domain/graph.go:453-465 | blocking nodes are exactly the unfinished nodes of the graph from which a retained `blocks` edge starts |
| `GraphStorage.AnswerEntryPoints` | internal/adapters/sqlite/graphs.go:242-273 | whatever the budget, a planning answer counts every entry point of the project and shows the first of them, as many as the budget; any other answer counts what it shows |
| `GraphStorage.ListedExact` | internal/adapters/sqlite/graphs.go:242-273 | storage lists exactly the claimable issues that are neither done nor cancelled, and not in review if that is left out |
| `GraphStorage.ListedInOrder` | internal/adapters/sqlite/graphs.go:242-273 | in the order in which the project has them |
| `GraphStorage.EntryPointsAnswered` | internal/domain/graph.go:433-451 | the count is that of all claimable, not excluded issues of the project under every budget; within the budget the answer names exactly those, beyond it a prefix that a larger budget only prolongs |
| `GraphStorage.QueryRefinesScan` | internal/domain/graph.go:413-426 | when the whole project is loaded, counting and listing by query gives the same answer as the traversal's own scan of the snapshot |
| `GraphDistance.BallIsPaths` | internal/domain/graph.go:335-361 | the ball of radius k around a root is exactly what paths of at most k traversal hops reach, avoiding what earlier roots reached |
| `GraphDistance.DrainSearching` | internal/domain/graph.go:335-362 | one root's queue loop, under any budget and with deferral: what it meets lies within the depth limit, in order of distance, and while nothing is truncated it has met whole balls |
| `GraphReach.EveryNodeHasWitness` | internal/domain/graph.go:288-363 | for every input each node of the graph has a path of at most `depth` hops from some root, through open work and finished work that waits |
| `GraphReach.GraphExact` | internal/domain/graph.go:288-410 | for any roots, an untruncated graph holds exactly the open nodes the searches reach and the includable finished ones attached to them, each root's search avoiding what earlier ones reached |
| `GraphReach.NearIsReachedIff` | internal/domain/graph.go:325-345 | the searches reach everything near some root if and only if no node at which the depth limit stops a search, and which has an unreached neighbour, is closer to some root than that limit |
| `GraphReach.BorderAtLimit` | internal/domain/graph.go:338-340 | a reached node with an unreached neighbour was first met by some root's search at exactly the depth limit |
| `GraphReach.RootsApartReachAll` | internal/domain/graph.go:325-345 | if no node within the depth limit of one root is closer than that to another, the searches reach exactly what lies near some root, in whatever order the roots come |
| `GraphReach.NearButMissing` | internal/domain/graph.go:325-345 | two roots and depth one for which an untruncated result misses an issue one step from a root |
| `GraphReach.OneRootReach` | internal/domain/graph.go:335-362 | with one root the searches reach exactly the ball of the depth limit, so nothing near the root is missing |
| `GraphReach.SearchExact` | internal/domain/graph.go:288-410 | with one root, with or without deferral, an untruncated graph holds exactly the nodes distance prescribes and exactly the edges followed between open nodes or touching kept finished ones |
| `GraphReach.RootNearestFirst` | internal/domain/graph.go:314-361 | under any budget and for every root in turn, what its search retains comes in order of distance, and no open node it drops is nearer than one it keeps |
| `GraphReach.SearchNearestFirst` | internal/domain/graph.go:314-410 | with one root, under any budget: open nodes nearest first, all within the depth limit; finished ones follow only if no open one was dropped |
| `GraphBudget.PassOneCompares` | internal/domain/graph.go:325-363 | lock-step comparison of two budgets: identical runs, or the smaller lost a node to the budget |
| `GraphBudget.UntruncatedIsStable` | internal/domain/graph.go:443-481 | a result that reports no truncation is identical under every larger budget: nodes, edges, entry points, counts |
| `GraphBudget.FinalRetains` | internal/domain/graph.go:373-410 | the second pass keeps the attached deferred nodes in discovery order, as many as there is room for |
| `GraphBudget.LargerBudgetMatters` | internal/domain/graph.go:314-318 | some larger budget would keep other nodes if and only if the first pass dropped one or more nodes are attached than fit |
| `GraphBudget.TruncationFlag` | internal/domain/graph.go:373-397 | the node-limit flag is never missing, and is raised without cause exactly when the attached nodes fill the budget and the last deferred node is unattached |
| `GraphBudget.FlagWithoutCause` | internal/domain/graph.go:468-477 | one open and one isolated finished issue under a budget of one raise the flag though no budget keeps more |
| `GraphTruncation.PassOneWhole` | internal/domain/graph.go:314-318 | the first pass drops a node exactly when the unbudgeted first pass does not fit, and otherwise is that pass |
| `GraphTruncation.LargerHelpsIff` | internal/domain/graph.go:443-481 | some larger budget answers with other nodes, edges or entry points if and only if the unbudgeted graph does not fit or more entry points are counted than fit |
| `GraphTruncation.TruncatedMeaning` | internal/domain/graph.go:468-481 | `Truncated` is set whenever a larger budget helps, and set without cause exactly when all entry points fit and the graph fills the budget to the last place before an unattached finished issue |
| `GraphTruncation.UntruncatedAnswerIsStable` | internal/domain/graph.go:443-481 | an answer that reports no truncation is the answer to every larger budget, although storage lists more entry points for it |
| `GraphTruncation.TruncatedWithoutCause` | internal/domain/graph.go:468-481 | one open issue and one isolated finished one under a budget of one are flagged, and no larger budget answers with anything else |
| `GraphReasons.NodeLimitWinsIff` | internal/domain/graph.go:468-480 | whenever the entry points do not fit the reason is `node_limit`, under every budget, if and only if the unbudgeted graph has as many nodes as there are entry points, or one less and an unattached finished issue last |
| `GraphReasons.RootEntryPointsWin` | docs/03-mcp-tools.md:1619 | if the whole project is loaded and every entry point is a root, more entry points than the budget always mean `node_limit` |
| `GraphReasons.EntryPointLimitGiven` | docs/03-mcp-tools.md:1619 | an epic with two claimable tasks, asked for at depth zero under a budget of one, is answered with `entry_point_limit` |
| `GraphBuilder.Builder.AddNode` | internal/domain/graph.go:288-323 | the closure's effect on nodes, queue, deferral and flags is the state function's |
| `GraphBuilder.Builder.AppendEdge` | internal/domain/graph.go:529-535 | an edge is appended once |
| `GraphBuilder.Builder.Expand` | internal/domain/graph.go:346-361 | the loop over candidates |
| `GraphBuilder.Builder.Visit` | internal/domain/graph.go:348-360 | one turn of that loop |
| `GraphBuilder.Builder.Drain` | internal/domain/graph.go:335-362 | the queue loop terminates and ends in the drained state |
| `GraphBuilder.Builder.PassOne` | internal/domain/graph.go:325-363 | the loop over the roots, with its early stop |
| `GraphBuilder.Builder.IsAttached` | internal/domain/graph.go:378-388 | the search with early exit decides attachment to the first pass |
| `GraphBuilder.Builder.AppendVisitedEdges` | internal/domain/graph.go:401-409 | edges of an admitted node to retained nodes are appended in order |
| `GraphBuilder.Builder.PassTwo` | internal/domain/graph.go:369-410 | the loop over the deferred nodes |
| `GraphBuilder.IndexNodes` | internal/domain/graph.go:218-224 | the node index, later duplicates winning |
| `GraphBuilder.FilterEdges` | internal/domain/graph.go:224-245 | the edges that enter the adjacency lists |
| `GraphBuilder.BuildGraph` | internal/domain/graph.go:218-482 | the whole program computes the result all statements above are about |
| `Reservations.FoldInPlace` | internal/domain/reservation_glob.go:35-54 | in-place ASCII folding equals the pointwise fold |
| `ReservationInputs.FoldExact` | internal/domain/reservation_glob.go:35-54 | two texts fold alike if and only if they agree up to the case of ASCII letters |
| `Reservations.SplitJoin` | internal/domain/reservation.go:164-195 | splitting a joined path gives back its slash-free segments |
| `Reservations.SplitSegments` | internal/domain/reservation.go:164-179 | the loop over the parts drops, refuses and classifies exactly as specified, stopping at the first error |
| `Reservations.NormalizeWellFormed` | internal/domain/reservation.go:94-197 | accepted resources are well formed: real segments, a `**` only at the end of a glob, a lower-case namespace |
| `Reservations.PathAccepted` | internal/domain/reservation.go:147-197 | a path is accepted if and only if it has at most 4096 runes, no NUL, no backslash, no leading slash and no drive letter, no part is `..`, in a glob no name holds a wildcard and `**` comes last, and some part names something; then its segments are the parts that name something, in order, each of the kind it reads as |
| `ReservationInputs.LogicalAccepted` | internal/domain/reservation.go:104-145 | a logical resource is accepted if and only if its namespace matches `[a-z][a-z0-9.-]{0,63}` and its name, without the white space around it, has 1 to 256 runes and no NUL; then it is that namespace and that name |
| `ReservationInputs.TrimExact` | internal/domain/reservation.go:112-112 | trimming yields the one part of a text that has only white space around it and neither begins nor ends with any |
| `ReservationInputs.RefusalNamesDefect` | internal/domain/reservation.go:94-206 | every refusal names a defect that the input has |
| `Reservations.PathRoundTrip` | internal/domain/reservation.go:147-206 | normalizing the display of an accepted path gives the same resource, except exactly when the display looks like a Windows volume |
| `Reservations.VolumeDisplayRefused` | internal/domain/reservation.go:159-162 | `./C:` is accepted and its display `C:` is refused |
| `Reservations.LogicalRoundTrip` | internal/domain/reservation.go:104-125 | a normalized logical resource normalizes to itself, and its namespace holds no colon |
| `Reservations.FoldedSegments` | internal/domain/reservation_overlap.go:81-87 | the filled slice is the comparison form |
| `ReservationOverlap.GlobMatchesShape` | internal/domain/reservation_glob.go:94-140 | a glob's language is the language of its shape |
| `ReservationOverlap.CoversShape` | internal/domain/reservation_overlap.go:33-65 | every path resource covers exactly the paths that fit its shape |
| `ReservationOverlap.IntersectExact` | internal/domain/reservation_glob.go:142-167 | two shapes intersect if and only if some real path fits both |
| `ReservationOverlap.MeetIsIntersect` | internal/domain/reservation_overlap.go:43-64 | path resources share a path if and only if their shapes intersect |
| `ReservationOverlap.MeetLogical` | internal/domain/reservation_overlap.go:34-37 | a logical resource meets exactly the logical resource of the same namespace and name |
| `ReservationOverlap.FirstLiteralShortcut` | internal/domain/reservation_overlap.go:23-42 | resources that begin with different literals share no path, so skipping the comparison changes no answer |
| `ReservationOverlap.BuildShape` | internal/domain/reservation_glob.go:103-121 | the loop builds the shape of the segments |
| `ReservationOverlap.MatchesPath` | internal/domain/reservation_glob.go:126-140 | the scan decides whether a path fits a shape |
| `ReservationOverlap.Intersects` | internal/domain/reservation_glob.go:148-167 | the scan decides whether some real path fits both shapes |
| `ReservationOverlap.DescendantsExact` | internal/domain/reservation_glob.go:169-198 | shared positions agree and lengths allow it if and only if some real strict descendant of the directory fits the shape |
| `ReservationOverlap.IntersectsDescendantsOf` | internal/domain/reservation_glob.go:174-198 | the scan decides whether a real strict descendant of the directory fits the shape |
| `ReservationOverlap.IsPrefixOrEqual` | internal/domain/reservation_overlap.go:103-113 | the scan decides the prefix relation |
| `ReservationOverlap.EqualSegments` | internal/domain/reservation_overlap.go:89-99 | the scan decides equality |
| `ReservationOverlap.PrepareOverlap` | internal/domain/reservation_overlap.go:12-21 | the cached forms are those of the resource |
| `ReservationOverlap.CompareKinds` | internal/domain/reservation_overlap.go:43-64 | each cell of the nine-way case split decides whether the two languages meet |
| `ReservationOverlap.PreparedOverlaps` | internal/domain/reservation_overlap.go:33-65 | with shortcut and cache, the answer is whether the languages meet |
| `ReservationOverlap.Overlaps` | internal/domain/reservation_overlap.go:77-79 | two resources conflict if and only if some target is covered by both |
| `ReservationMeaning.CoversExact` | internal/domain/reservation_overlap.go:33-65 | a file covers its path, a directory everything from it down, a glob what matches it name by name, each up to ASCII case |
| `ReservationMeaning.MeetsOnPath` | internal/domain/reservation_overlap.go:67-79 | two path resources conflict if and only if some path, in whatever case it is written, is named by both |
| `ReservationOverlap.OverlapsReflexive` | internal/domain/reservation_overlap.go:67-76 | no resource has an empty language: it conflicts with itself |
| `ReservationRequest.MeetSymmetric` | internal/domain/reservation_overlap.go:74-76 | conflict is symmetric |
| `ReservationOverlap.SameKeySameLanguage` | internal/domain/reservation.go:75-89 | within a kind, equal keys mean equal languages |
| `ReservationKeys.KeyExact` | internal/domain/reservation.go:75-89 | within a kind, two resources denote the same language if and only if their keys are equal or they are the globs `**` and `*/**` |
| `ReservationKeys.DifferentKeysSameLanguage` | internal/domain/reservation.go:75-89 | those two globs are accepted, denote the same language and have different keys |
| `ReservationKeys.KeysAcrossKinds` | internal/domain/reservation.go:75-89 | between kinds, keys agree if and only if one is a logical resource whose namespace is the name of the other's kind and whose name is its folded path |
| `ReservationKeys.SameKeyOtherKind` | internal/domain/reservation.go:75-89 | the file `x` and the logical resource `file:x` have one key and do not conflict |
| `ReservationRequest.RepresentedConsistent` | internal/domain/reservation_request.go:32-40 | a request that has a representation has no two conflicting, non-duplicate items |
| `ReservationRequest.OneRepresentative` | internal/domain/reservation_request.go:35-40 | each item has exactly one representative, with the same language |
| `ReservationRequest.FirstOverlap` | internal/domain/reservation_request.go:66-72 | the inner loop finds the first prepared item the candidate meets |
| `ReservationRequest.PrepareItem` | internal/domain/reservation_request.go:56-75 | one turn keeps the representation, or names why the request is refused |
| `ReservationRequest.PrepareReservationRequest` | internal/domain/reservation_request.go:41-77 | a request of 1 to 50 items is accepted if and only if every item normalizes and every two are duplicates or disjoint; the result is disjoint, in order, and represents every item; a refusal names an item that explains it |
| `RouterSafety.InitialInv` | internal/compose/router.go:68-97 | a new router satisfies the invariant, with or without a default project |
| `RouterSafety.StepKeeps` | internal/compose/router.go:110-516 | every locked region keeps the invariant |
| `RouterSafety.RunSafe` | internal/compose/router.go:110-516 | every state of every interleaving satisfies it: counters, map, life cycle, bundles, recency, closing |
| `RouterSafety.ReleaseCounts` | internal/compose/router.go:508-516 | when a use is released its entry's count and the total are positive, so the guards never absorb a release, and the counters stay exact |
| `RouterSafety.NoUseEver` | internal/compose/router.go:297-315 | once a bundle is handed over for closing, no waiter or lease on its entry exists then or at any later point of the run |
| `RouterSafety.RetiredForever` | internal/compose/router.go:185-187 | a bundle handed over for closing stays so |
| `RouterSafety.ClosedOnce` | internal/compose/router.go:390-398 | no run closes a bundle twice |
| `RouterSafety.SingleFlight` | internal/compose/router.go:135-212 | at most one opening per ref is in flight and an entry still opening is never removed |
| `RouterSafety.OpeningNotRemoved` | internal/compose/router.go:193-196 | the opener's early return for a removed entry is unreachable |
| `RouterSafety.VictimUnique` | internal/compose/router.go:297-315 | the eviction victim does not depend on map iteration order |
| `RouterEviction.DefaultStays` | internal/compose/router.go:68-97 | in every run the default project stays in the map under its ref, and its bundle is not handed over, until cleanup takes the map |
| `RouterEviction.RunPinning` | internal/compose/router.go:68-97 | in every state of every run the default project and no other is pinned |
| `RouterEviction.StepStamps` | internal/compose/router.go:292-295 | a step stamps exactly the entry a caller joins or whose opening succeeds, with a stamp newer than any before |
| `RouterEviction.LastTouchExists` | internal/compose/router.go:124-183 | every entry but the default project has a last action of the run that acquired or opened it, and carries the stamp of that action |
| `RouterEviction.IdleExact` | internal/compose/router.go:301-303 | the eviction loop considers exactly the opened projects in the map that nobody waits for or holds, other than the default project |
| `RouterEviction.VictimFurthest` | internal/compose/router.go:297-315 | of these it picks the one whose last acquisition or opening lies furthest back in the run |
| `RouterEviction.AcquireExact` | internal/compose/router.go:119-184 | what every acquisition of every run does to the map: nothing if closed, one more user if the ref is mapped, a new entry if there is room, a new entry for the evictable project furthest back if the map is full, and nothing if there is none |
| `RouterEviction.LeavesMap` | internal/compose/router.go:185-388 | in every run an entry leaves the map in three ways only: evicted for another ref from a full map as the project furthest back, its own opening failed, or cleanup took the drained map |
| `RouterSafety.NoOverwrite` | internal/compose/router.go:170-183 | a new entry is created only for a ref the map lacks |
| `RouterSafety.AfterClosing` | internal/compose/router.go:119-123 | after closing nothing starts opening and only a maintenance pin raises the use count |
| `RouterSafety.CompleteMeansClosed` | internal/compose/router.go:375-406 | a completed close leaves no bundle behind: each is closed, or was handed to the eviction that is closing it |
| `RouterSafety.GaveUpForever` | internal/compose/router.go:364-380 | a cleanup that gave up stays given up |
| `RouterSafety.ClosingCanComplete` | internal/compose/router.go:340-406 | from any state satisfying the invariant, completion is reachable if and only if no closer has given up |
| `RouterSafety.GivesUp` | internal/compose/router.go:375-380 | a step makes a closer give up if and only if it is a cleanup that finds an entry in use |
| `RouterSafety.CompletionLost` | internal/compose/router.go:364-380 | in every run, completion is still reachable if and only if no earlier cleanup found an entry in use |
| `RouterSafety.BlockedByPin` | internal/compose/router.go:366-380 | whenever a cleanup finds an entry in use, a maintenance pin took an entry between the closer's two locked regions |
| `RouterSafety.PinDefeatsClose` | internal/compose/router.go:366-380 | close, start cleanup, pin, cleanup: after these four steps completion is out of reach, for any capacity |
| `RouterProgram.Router.constructor` | internal/compose/router.go:68-97 | the program's initial state |
| `RouterProgram.Router.FindVictim` | internal/compose/router.go:297-311 | the loop over the map, in any order, finds the least recently used idle entry |
| `RouterProgram.Router.AcquireLocked` | internal/compose/router.go:119-184 | the first locked region of `Acquire` is the model's step, whose effect on the map `RouterEviction.AcquireExact` states in terms of callers and the run; what it decides is what the state says |
| `RouterProgram.Router.Touch` | internal/compose/router.go:135-167 | joining an opening or ready entry counts and stamps it |
| `RouterProgram.Router.EvictEntry` | internal/compose/router.go:312-314 | the victim leaves the map and is handed over for closing |
| `RouterProgram.Router.StartOpening` | internal/compose/router.go:178-183 | the new entry, its first waiter and the counters |
| `RouterProgram.Router.AddEntry` | internal/compose/router.go:178-180 | the new entry is opening, unused and in the map |
| `RouterProgram.Router.PublishOpening` | internal/compose/router.go:191-211 | the opener's locked region, for success and failure |
| `RouterProgram.Router.DropFailed` | internal/compose/router.go:198-202 | a failed entry leaves the map and is marked failed and removed |
| `RouterProgram.Router.MarkReady` | internal/compose/router.go:206-210 | an opened entry becomes ready and most recent |
| `RouterProgram.Router.ReleaseEntry` | internal/compose/router.go:508-516 | one use is given back, under the guards |
| `RouterProgram.Router.CancelWait` | internal/compose/router.go:143-148 | a cancelled waiter gives its use back |
| `RouterProgram.Router.ResumeWait` | internal/compose/router.go:222-232 | a resumed waiter becomes a lease exactly when opening succeeded |
| `RouterProgram.Router.PinReadyEntry` | internal/compose/router.go:457-467 | a pin takes a use of a ready entry without touching recency, closed or not |
| `RouterProgram.Router.PinEntry` | internal/compose/router.go:464-466 | the use is counted for the entry and in total |
| `RouterProgram.Router.ReleaseLease` | internal/compose/router.go:491-506 | the first release gives the use back, later ones do nothing |
| `RouterProgram.Router.CloseLocked` | internal/compose/router.go:340-370 | marking the router closed, and starting cleanup only when drained |
| `RouterProgram.Router.CleanupLocked` | internal/compose/router.go:375-388 | the re-check, and taking the whole map |
| `RouterProgram.Router.TakeAll` | internal/compose/router.go:381-387 | the whole map is emptied and its entries handed over for closing |
| `BlocksCycles.BlocksPathExists` | internal/domain/attempt_policy.go:153-178 | the search terminates, looks up each node's successors at most once and only for reached nodes, and answers whether a non-empty directed path exists |
| `BlocksCycles.PathStays` | internal/domain/attempt_policy.go:160-178 | a path cannot leave a set closed under edges, which is why an exhausted search may answer no |
| `BlocksCycles.CycleHasSource` | internal/domain/logical_project_import.go:1949-1953 | every cycle passes through a node with an outgoing edge, so checking the adjacency keys is enough |
| `BlocksCycles.ValidateBlocksAcyclicity` | internal/domain/logical_project_import.go:1941-1955 | a batch is accepted if and only if its `blocks` relations have no cycle |
| `BlocksCycles.NewEdgeKeepsAcyclic` | internal/domain/attempt_policy.go:153-159 | adding u to v keeps an acyclic graph acyclic if and only if u and v differ and no path leads from v to u |
| `BlocksCycles.AdmitBlocks` | internal/adapters/sqlite/planning.go:234-262 | admitting a plan's `blocks` relations one by one keeps the graph acyclic, and refuses one for a cycle only if adding it would close one |
| `BlocksCycles.AdmitNew` | internal/adapters/sqlite/planning.go:247-262 | a new relation is a duplicate, a cycle or admitted, exactly by the stored relations and by whether adding it keeps the graph acyclic |
| `EventCursors.FloorUnique` | internal/domain/logical_project_cursors.go:23-32 | the floor is the one number that is 0 or an accounted-for destination, and at least every accounted-for destination |
| `EventCursors.OrderIrrelevant` | internal/domain/logical_project_cursors.go:44-48 | neither the order of the pairs nor duplicates matter |
| `EventCursors.FloorMonotone` | internal/domain/logical_project_cursors.go:66-78 | a later cursor never maps to an earlier position |
| `EventCursors.AccountedForStays` | internal/domain/logical_project_cursors.go:23-26 | an event after the remapped cursor lay after the original one, whatever destinations were assigned |
| `EventCursors.SidesKeptIffIncreasing` | internal/domain/logical_project_cursors.go:23-32 | every event keeps its side of every cursor if and only if destinations are positive and grow with sources |
| `EventCursors.OutOfOrderHidesEvent` | internal/domain/logical_project_cursors.go:37-41 | with destinations out of order an event after the cursor counts as accounted for |
| `EventCursors.NewMapping` | internal/domain/logical_project_cursors.go:46-64 | the sorted rows hold the source positions and the running maxima |
| `EventCursors.FirstBeyond` | internal/domain/logical_project_cursors.go:70-73 | the halving search finds the first source position beyond the cursor |
| `EventCursors.Remap` | internal/domain/logical_project_cursors.go:66-78 | remapping is the floor: the greatest destination at or before the cursor, or 0 |
| `WorkflowPolicies.Matches` | internal/domain/workflow_policy.go:89-112 | a selector matches exactly when the type is allowed and every required label is present up to spelling; epics never |
| `WorkflowMeaning.LabelExact` | internal/domain/workflow_policy.go:102-110 | two labels match if and only if, without white space around them, they agree up to the case of ASCII letters |
| `WorkflowMeaning.ContributingExact` | internal/domain/workflow_policy.go:89-112 | a policy applies exactly if it is active, the issue is no epic, is of one of its types if it has any, and has a matching label for each it asks for |
| `WorkflowPolicies.SpellingIrrelevant` | internal/domain/workflow_policy.go:102-110 | matching the caller's spelling or the stored, folded labels gives the same answer |
| `WorkflowPolicies.StoredUnambiguous` | internal/domain/workflow_policy.go:316-321 | distinct policies with owned, distinctly keyed requirements never clash |
| `WorkflowPolicies.MatchWorkflowPolicies` | internal/domain/workflow_policy.go:322-358 | collecting, sorting and deduplicating compute the effective set |
| `WorkflowPolicies.DedupeStrict` | internal/domain/workflow_policy.go:350-357 | dropping adjacent repeats from a sorted list keeps one element of every identity, strictly sorted |
| `WorkflowPolicies.EffectiveIsUnion` | internal/domain/workflow_policy.go:316-358 | for any policies the effective set is strictly sorted by policy then key, holds nothing foreign and covers every contributed identity |
| `WorkflowMeaning.EffectiveInOrder` | internal/domain/workflow_policy.go:338-357 | the effective set comes by policy ID, and within a policy by key, compared character by character |
| `WorkflowPolicies.EffectiveExactIffUnambiguous` | internal/domain/workflow_policy.go:316-321 | it is exactly the union if and only if no two different contributed requirements share policy and key |
| `WorkflowPolicies.EffectiveIgnoresOrder` | internal/domain/workflow_policy.go:322-358 | reading the same policies in another order gives the same sequence |
| `WorkflowGates.IsSatisfied` | internal/domain/workflow_gate.go:115-135 | satisfaction and reason per kind |
| `WorkflowGates.EvaluateGate` | internal/domain/workflow_gate.go:85-113 | an unknown point or the first unknown kind is an error; otherwise the applicable requirements are split, in order |
| `WorkflowGates.EvaluationSplits` | internal/domain/workflow_gate.go:95-112 | every applicable requirement is reported once, on the side where it belongs, and nothing else is |
| `WorkflowGates.PassedIffAllHold` | internal/domain/workflow_policy.go:61-75 | a gate passes if and only if the evidence shows every requirement demanded at the point: fields at every point but approval, attempt evidence when handing in or finishing, approval when finishing or approving |
| `WorkflowGates.EvidenceMonotone` | internal/domain/workflow_gate.go:115-135 | more evidence never unsatisfies a requirement or fails a gate |
| `WorkflowGates.DonePassesEverywhere` | internal/domain/workflow_policy.go:61-75 | passing at `complete_work_to_done` implies passing at every other point |
| `WorkflowGates.GateMeansPolicies` | internal/adapters/sqlite/gate_enforcement.go:32-46 | from policies to verdict: the gate passes if and only if every applicable requirement of every matching active policy holds; both reports come out strictly sorted |
| `WorkflowGates.NewGateSnapshot` | internal/domain/workflow_gate.go:180-208 | the snapshot keeps the requirements as given, holds the sources as a sorted permutation, and its fingerprint is the digest of exactly what it holds |
| `WorkflowGates.FreezingRecords` | internal/domain/workflow_gate.go:163-179 | a snapshot frozen from the matching policies holds exactly what they require and which they were, each once, strictly sorted |
| `WorkflowMeaning.SnapshotInOrder` | internal/domain/workflow_gate.go:180-190 | a snapshot lists requirements by policy ID and key, and source policies by ID |
| `WorkflowMeaning.UnmetInOrder` | internal/domain/workflow_gate.go:90-112 | what a gate leaves unmet comes by policy ID and key |
| `WorkflowGates.ClaimGate` | internal/adapters/sqlite/gate_enforcement.go:32-46 | a claim passes if and only if every requirement of every matching policy is of a known kind and, if it asks for issue fields, they are filled in; then the frozen snapshot records exactly those policies |
| `WorkflowGates.MatchingSourcePolicies` | internal/adapters/sqlite/gate_enforcement.go:161-173 | the source references are those of the matching active policies, in order |
| `WorkflowGates.FingerprintExact` | internal/domain/workflow_gate.go:163-179 | as far as the digest does not collide, two recorded snapshots have equal fingerprints if and only if they recorded the same requirements, source policies and issue version |
| `WorkflowGates.FingerprintIgnoresOrder` | internal/domain/workflow_gate.go:163-179 | whatever the digest, snapshots of the same policies read in another order have the same content and fingerprint |

## Left out

- SQLite repositories, migrations, transactions and retries: of storage, only the entry points it supplies to a planning
  graph are modelled. Which issues are loaded for a rooted graph, and that a graph is selected once from bare issues and
  once from complete ones, is not.
- HTTP and stdio serving, the command line, `connect`, the board and the editor extension: I/O and presentation.
- Filesystem identity, initialization, inventory, backup and diagnosis: operating-system calls.
- SHA-256 and JSON marshalling of snapshots: abstract functions; `FingerprintExact` assumes no collision. That
  `encoding/json` tells a nil list from an empty one is not modelled.
- `EncodeNormalized` and `validateGoValue`: reflection over Go values; the model starts at raw JSON.
- `NewCanonicalizer` and its check for negative limits: limits are natural numbers here.
- `encoding/json` is modelled by a token reader for RFC 8259 with the same token protocol (`Token`, `More`, state
  stack); its buffering and error texts are not. An escape that is half of a surrogate pair, whose meaning the RFC
  leaves open, is read as U+FFFD, as Go does.
- Error messages, detail fields and wrapping: errors are told apart by their code, and by their index in requests.
- Invalid UTF-8 in reservation paths, names and labels: they are rune sequences here, and the validity check in
  `ValidateText` is left out with it.
- Input `Validate` methods, `graphBounds`, enumerations' `Valid` and `Clone` helpers: finite case analysis or copying.
- Adjacency lists of the graph: `adjacency[id]` is the filter of the usable edges at a node, in snapshot order,
  instead of a stored map; entry point and blocking lists are functions rather than loops.
- `BuildGraph`: when the snapshot counts more entry points than the budget, it must list at least as many as the
  budget; the source would panic otherwise. Whatever storage supplies does (`GraphStorage.Answer` needs no condition).
- Slices and maps as shared memory: they are values here, so aliasing between caller and callee is not captured.
- `Overlaps`: the languages it decides contain every path of non-empty segments, of any length. A path longer than the
  4096 runes a file reservation may name, or holding NUL, can be the only one two patterns share.
- `Router`: entries are numbered by creation, references are those numbers; waiters and leases are holder records;
  condition variables, contexts and timeouts are actions that may happen at any time. `OpenProject`, `resolveRef`, the
  context check before the lock, the `ExpireAttempts` sweep around `pinReadyEntry`, and errors from closing bundles are
  left out.
- Liveness of `Close`: `ClosingCanComplete` says completion is reachable, not that a scheduler reaches it.
- `AdmitBlocks`: only the `blocks` relations of a plan; resolving references and the other checks of a plan are not.
- The rest of `logical_project_import.go`, `ApplyIssuePatch`, `EvaluateClaim` and the status tables: long but shallow.
