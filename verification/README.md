# Verified model of the fuzzing framework's core

This project models the parts of the Apache fuzzing framework whose correctness rests on an argument
over unbounded inputs or runs, and proves that argument in Dafny. `dafny verify dfyconfig.toml` checks
all of it.

Five groups of code are modelled.

**Call-tree extraction and its report.** `CallGraph` is the call graph as a finite map; `WalkSpec` says
what a walk produces as a value (a depth-first plan, the tree drawn from it, the edges it emits);
`WalkProperties` proves what holds of every such plan; `CallGraphWalker` is the walker itself, two
recursive methods over shared mutable state, proved to produce exactly the plan's tree, edges and
function map; `WalkTheorems` says what a whole walk gives in terms of the call records. `Introspect` is
the part of the report generator that merges several walks, turns coverage segments into line counts and
writes those counts onto tree nodes.

**In-memory connection filters.** `Brigade` holds bucket brigades and the two library operations the
filters rely on; `ConnectionFilters` holds one step of the client and of the backend filter as a function
of the state, the filters as objects that take exactly those steps, and theorems over every sequence of
calls on a connection.

**The alternate build tree.** `BuildTree` is `ensure_build` as a protocol: one atomic file-system action
at a time, with aborts, reconfigurations of the root tree and interrupted deletions in between.
`AlternateBuildTree` is the same code in its own form, methods changing the file system in place, each
action proved to be the protocol's next step.

**Wire formats.** `Http1`, `MultipartBody`, `Multipart`, `Charset`, `Hpack`, `Http2` and `Ajp` hold the printers as the
source has them (methods growing buffers in loops), decoders written from RFC 9112, RFC 2046, RFC 7540,
RFC 7541 and the AJPv13 packet layout, and the exact conditions under which the decoder recovers what was
printed. `MultiInput` cuts one input into several at blank lines. `Text` and `Octets` are their common
vocabulary; an octet is a character.

**Grammar expansion and link selection.** `Grammar` has depth-limited expansion, for every source of
choices, against the grammar's own derivation relation, and the seed collection loop. `LinkSelection` has
the greedy choice of bitcode files.

Some of what one would like to claim is false of the code; in each case the model keeps the code as it is,
exhibits the failure, and proves when the claim does hold:

- A returned alternate build need not be a build of the configuration whose hash it stores, if the root is
  reconfigured between reading the hash and finishing the copy (`BuildTree.ReconfiguredBeforeCopy`,
  `BuildTree.ReconfiguredDuringCopy`); an interrupted hash write leaves an empty hash, and a root without a
  configuration line is then served another one's build (`BuildTree.EmptyHashAccepted`,
  `BuildTree.TornWriteServed`); and an interrupted deletion can lose the library or be served later
  (`BuildTree.TornDeleteLosesLibrary`, `BuildTree.TornDeleteServed`). `BuildTree.KeepsIff` and
  `BuildTree.HistoryTheorem` say exactly which events, and which runs in terms of the root's history, keep
  stored hashes true; `BuildTree.OwnCopyIff` which reconfigurations spoil a copy.
- `ApplyMultipart` loses its Content-Length field when the boundary is CR LF (`Multipart.AppliedIff`), and
  a request printed with another length ends up with two conflicting ones (`Multipart.ReadBackIff`).
- A printed HTTP/1.1 request is framed exactly if its own headers allow it (`Http1.FramingIff`); a
  header whose name is Content-Length up to a NUL does not (`Http1.HiddenLength`), and a Host field is
  there for a reader unless one hides its name in the same way (`Http1.HostIff`). A multipart body
  without extra dashes reads back exactly if no part breaks the framing (`MultipartBody.BodyReadIff`;
  `MultipartBody.FullReaderMisled` shows what dashes can do), an HTTP/2 header block exactly if no name
  or value exceeds 126 octets (`Hpack.BlockDecodesIff`), an HTTP/2 frame exactly if its payload is below
  2^24 octets (`Http2.FramesReadIff`), an AJP response exactly if every packet fits and no literal
  header name's length looks like a header code (`Ajp.ResponseDecodesIff`).
- Rewriting source directories is idempotent exactly if neither the coverage tree nor the original one lies
  inside the other (`Introspect.RewriteIdempotentIff`).

## Model

| member | source | states |
|---|---|---|
| CallGraph.ReachableIsClosed | framework/introspector/src/CallGraphWalker.cpp:57-59 | The functions reachable through records with a callee include the entry and no such record leaves them. |
| CallGraph.ReachableIsLeast | framework/introspector/src/CallGraphWalker.cpp:57-59 | They are the least such set, so reachability by paths is what closing over call records means. |
| CallGraph.CallsInOrder | framework/introspector/src/CallGraphWalker.cpp:57-59 | The calls of a function are its records that have a callee, one for one, in record order, with the record's site. |
| CallGraphWalker.CallGraphWalker.ShallowNode | framework/introspector/src/CallGraphWalker.cpp:12-43 | Re-expansion yields the graph's unfolding of exactly the given height, stores the metadata of every function in it, and touches neither the visited set nor the edges. |
| CallGraphWalker.CallGraphWalker.WalkNode | framework/introspector/src/CallGraphWalker.cpp:45-94 | From any visited set, on any graph: the tree, the newly visited functions, the stored metadata and the appended edges are those of the depth-first plan. |
| CallGraphWalker.CallGraphWalker.VisitCallee | framework/introspector/src/CallGraphWalker.cpp:60-68 | A callee is expanded in full on its first visit and cut to an unfolding of height three, without edges, on every later one. |
| CallGraphWalker.CallGraphWalker.Walk | framework/introspector/src/CallGraphWalker.cpp:96-112 | An unknown entry gives the empty result; otherwise the function map holds exactly the functions reachable from the entry. |
| WalkSpec.UnfoldAll | framework/introspector/src/CallGraphWalker.cpp:23-40 | Re-expansion gives one child for each record that has a callee, no more and no fewer. |
| WalkSpec.Dfs | framework/introspector/src/CallGraphWalker.cpp:45-59 | The walk from a function is a full node of that function, entered through the given call, on every closed graph, cycles and parallel records included. |
| WalkSpec.DfsAll | framework/introspector/src/CallGraphWalker.cpp:57-89 | Walking the records of a function gives one kid for each call, with that call's callee and site, in record order. |
| WalkProperties.DfsConforms | framework/introspector/src/CallGraphWalker.cpp:57-91 | At every full node the plan lists that function's calls in record order. |
| WalkProperties.DfsVisitsOnce | framework/introspector/src/CallGraphWalker.cpp:61-68 | Functions expanded in full are new to the visited set and pairwise different, from any visited set. |
| WalkProperties.DfsClosed | framework/introspector/src/CallGraphWalker.cpp:57-91 | When the walk of a node ends, every callee of every function it expanded is visited. |
| WalkProperties.VisitsReachable | framework/introspector/src/CallGraphWalker.cpp:96-112 | The functions expanded in full, each at one node, and the functions named in the tree are both exactly the reachable ones. |
| WalkProperties.RenderNames | framework/introspector/src/CallGraphWalker.cpp:12-94 | A tree shows every expanded function and, cut parts included, nothing outside a set that calls do not leave. |
| WalkProperties.UnfoldFaithful | framework/introspector/src/CallGraphWalker.cpp:12-43 | In a re-expansion every parent and child are a real call record with that record's site. |
| WalkProperties.RenderFaithful | framework/introspector/src/CallGraphWalker.cpp:70-89 | In the whole tree every node shows either none of its function's calls or all of them in record order, each with its record's site. |
| WalkProperties.PlanEdgesOnce | framework/introspector/src/CallGraphWalker.cpp:77-84 | For each caller, the emitted edges are that function's located calls, once, in record order, if it was expanded, and none otherwise. |
| WalkProperties.PlanNodeCount | framework/introspector/src/CallGraphWalker.cpp:57-91 | Full and cut nodes together are one more than the calls of the expanded functions. |
| WalkProperties.RenderSize | framework/introspector/src/CallGraphWalker.cpp:12-94 | A tree has at most one node per expanded function plus the cut nodes' bound each. |
| WalkProperties.RenderDepth | framework/introspector/src/CallGraphWalker.cpp:12-94 | A tree is at most three levels deeper than the number of functions expanded. |
| WalkTheorems.TreeTheorem | framework/introspector/src/CallGraphWalker.cpp:45-112 | The tree of a walk is faithful to the graph, rooted at the entry, and names exactly the reachable functions. A function is expanded in full at its first node in preorder and there only, with one child for each of its calls; every later node shows three levels of it, neither more nor fewer. |
| WalkTheorems.DfsFullAtFirst | framework/introspector/src/CallGraphWalker.cpp:60-68 | From any visited set: a node of the walk is expanded in full if and only if its function was not visited before and no node before it in preorder is of the same function. |
| WalkTheorems.UnfoldOpened | framework/introspector/src/CallGraphWalker.cpp:19-40 | A re-expansion to a given height stops no earlier: of its nodes above that height only functions without a callee have no children. |
| WalkTheorems.RenderDraws | framework/introspector/src/CallGraphWalker.cpp:45-94 | Every full node of the tree has one child for each of its calls, and every cut one shows exactly three levels. |
| WalkTheorems.OwnEdgesInOrder | framework/introspector/src/CallGraphWalker.cpp:71-86 | A function's own edges are its located call records, one for one and in order, field by field. |
| WalkTheorems.EdgesTheorem | framework/introspector/src/CallGraphWalker.cpp:57-91 | The edges of a reachable caller are its records with a callee and a location, one for one and in order, each with that record's callee, file, line, column and indirect flag; no other edges come out. |
| WalkTheorems.CountTheorem | framework/introspector/src/CallGraphWalker.cpp:57-91 | R reachable functions with E calls give R full nodes and E - R + 1 cut ones. |
| WalkTheorems.SizeTheorem | framework/introspector/src/CallGraphWalker.cpp:12-112 | Depth is at most R + 3, and the node count at most R plus the cut nodes times a full tree of height three. |
| WalkTheorems.FullTreeOfThree | framework/introspector/src/CallGraphWalker.cpp:66-67 | That full tree has 1 + d + d^2 + d^3 nodes. |
| Introspect.RewriteIdempotentIff | framework/src/apatchy/managers/report_manager.py:787-791 | For any two trees, rewriting a source directory to the coverage tree twice is rewriting it once, for all directories, if and only if neither tree lies inside the other. |
| Introspect.RewriteMoves | framework/src/apatchy/managers/report_manager.py:787-791 | The original tree and everything below it moves to the coverage tree, and every other directory stays, one whose name only begins like the original tree's included. |
| Introspect.MergeWalks | framework/src/apatchy/managers/report_manager.py:766-803 | Over any list of walks: functions are the union with the earliest record, rewritten; each edge of each walk has a merged edge with its caller, callee, file and line, no two merged edges agree on all four, and the merged ones are the first of their kind, in order. |
| Introspect.MergeFunctions | framework/src/apatchy/managers/report_manager.py:787-796 | A further walk adds the functions it has that were lacking and changes none. |
| Introspect.MergeEdges | framework/src/apatchy/managers/report_manager.py:798-803 | The seen set holds exactly the keys so far, and edges with a new key are appended in order. |
| Introspect.KeptAreFirst | framework/src/apatchy/managers/report_manager.py:798-803 | Such edges are pairwise different in those four fields, and every edge of a walk agrees with one of them. |
| Introspect.AllEdgesInOrder | framework/src/apatchy/managers/report_manager.py:766-799 | The edges are taken walk by walk, each walk's in its own order. |
| Introspect.DedupSelects | framework/src/apatchy/managers/report_manager.py:801-803 | The merged edges are, in their order, exactly those that no earlier edge agrees with in caller, callee, file and line. |
| Introspect.MergedWalksTheorem | framework/src/apatchy/managers/report_manager.py:766-796 | Merging the walks of one graph from several entries gives exactly the functions some entry reaches, each with its own metadata, of which only the source directory is rewritten. |
| Introspect.MergedEdgesTheorem | framework/src/apatchy/managers/report_manager.py:774-803 | Every merged edge of walks of one graph shows a located call record of a function some entry reaches, field by field; every such record has a merged edge with its caller, callee, file and line; and no two merged edges agree on all four. |
| Introspect.LineTable | framework/src/apatchy/managers/report_manager.py:841-848 | A line is in the table if and only if some counted segment covers it, with the largest count covering it. |
| Introspect.LineTableUnique | framework/src/apatchy/managers/report_manager.py:841-848 | That condition determines the table. |
| Introspect.RaiseLines | framework/src/apatchy/managers/report_manager.py:847-848 | One segment raises exactly the lines of its range to at least its count. |
| Introspect.CountLines | framework/src/apatchy/managers/report_manager.py:835-849 | A name is in the result if and only if some file has it and any segments, with the line table of all the segments of the last such file. |
| Introspect.SiteCountTheorem | framework/src/apatchy/managers/report_manager.py:854-867 | A call site under a function with a known directory gets the largest count of all the segments of its file, the last one of that name with any, that cover its line, or -1 exactly if none does; every other node gets -1. |
| Introspect.TreeNode.Annotate | framework/src/apatchy/managers/report_manager.py:854-869 | In place, every node below gets the count of its own call site under its own parent; names, sites and children cannot change. |
| Introspect.StripSlashes | framework/src/apatchy/managers/report_manager.py:861 | All trailing slashes go, and nothing else. |
| Brigade.Partition | framework/harnesses/fuzz_common.c:326-329 | The contract of the library's partition: with too few octets it is incomplete, leaves the brigade alone and points past its end. |
| Brigade.FindLf | framework/harnesses/fuzz_common.c:318 | The first line feed, on which the library's line split rests. |
| ConnectionFilters.FilterContext.FuzzInputFilter | framework/harnesses/fuzz_common.c:284-365 | The client filter changes its brigade, its end mark and the global input, and answers, exactly as one client step. |
| ConnectionFilters.FilterContext.BackendInputFilter | framework/harnesses/fuzz_backend.c:87-157 | The backend filter likewise, with its own short-read rule. |
| ConnectionFilters.FilterContext.Populate | framework/harnesses/fuzz_common.c:300-310 | An armed input enters an empty brigade as one data bucket and an end-of-stream bucket, and is disarmed. |
| ConnectionFilters.FilterContext.MoveBuckets | framework/harnesses/fuzz_common.c:333-340 | The bucket loop moves exactly the buckets before the split point. |
| ConnectionFilters.CopyToEos | framework/harnesses/fuzz_common.c:347-357 | A speculative read copies up to and including the first end-of-stream bucket. |
| ConnectionFilters.StepInvariant | framework/harnesses/fuzz_common.c:284-365 | For either filter, every mode and argument: what is delivered and what is left, octet by octet, and that the brigade keeps its shape; a failed or speculative read consumes nothing. |
| ConnectionFilters.RunInvariant | framework/harnesses/fuzz_common.c:284-365 | The invariant holds after every sequence of calls on a connection. |
| ConnectionFilters.Conservation | framework/harnesses/fuzz_common.c:284-365 | Over every run, the octets consumed followed by those still held are the original input. |
| ConnectionFilters.EndOnceAndLast | framework/harnesses/fuzz_common.c:300-343 | End-of-stream is handed out at most once, after all data. |
| ConnectionFilters.EndOfFilePermanent | framework/harnesses/fuzz_common.c:292-315 | Once a call returns end-of-file, every later call but initialisation does, with nothing delivered. |
| ConnectionFilters.LoadedAtMostOnce | framework/harnesses/fuzz_common.c:300-310 | At most one call of a run moves the input into the brigade. |
| ConnectionFilters.ClientReadsNeverEnd | framework/harnesses/fuzz_common.c:323-344 | A client that only asks for positive numbers of octets never sees end-of-file: short reads are incomplete and consume nothing. |
| ConnectionFilters.BackendShortReadEnds | framework/harnesses/fuzz_backend.c:138-156 | A backend read for more than is held delivers all of it, and the next call ends. |
| ConnectionFilters.FuzzOneInput | framework/harnesses/fuzz_common.c:697-758 | An empty input arms nothing; otherwise the connection sees a fresh filter armed with that input, and nothing stays armed for the next one. |
| BuildTree.KeepsIff | framework/src/apatchy/utils/build_tree.py:29-104 | For each of five promises and every event in every state, the event keeps the promise if and only if it is harmless to it. An aborted deletion must have removed the hash file; for true stored hashes, committing a hash must find the tree copied from it alone, and for all of them, empty ones included, a torn write one copied without any; for true copies, the root must have the hash that was read when its copy begins and whenever it is reconfigured during it. For right paths, a root copied after the path check must have no Makefile or one that names its own directory. |
| BuildTree.PromiseTheorem | framework/src/apatchy/utils/build_tree.py:29-104 | Over every run, a promise that holds at the start holds in every state if and only if every event of the run is harmless to it. |
| BuildTree.RelocatedTheorem | framework/src/apatchy/utils/build_tree.py:34-40 | Over roots whose Makefile, if any, names their own directory, no run works on or returns a tree whose Makefile names another one, a finished build that was moved included. |
| BuildTree.CopiedIsSources | framework/src/apatchy/utils/build_tree.py:87-96 | While a run works on its own copy, the tree's sources are the hashes the root had since that copy began: the root's history alone. |
| BuildTree.HistoryTheorem | framework/src/apatchy/utils/build_tree.py:29-104 | Over every run, all stored hashes, or all non-empty ones, are true in every state if and only if no aborted deletion leaves a hash file and each commit finds that the root had its hash and no other during the copy; for all of them, also each torn write that it had none. |
| BuildTree.OwnCopyIff | framework/src/apatchy/utils/build_tree.py:47-85 | From the end of the deletion to the hash write, over any events without an abort or a new start, the tree is a copy of the configuration whose hash was read if and only if the root had that hash when the copy began and at every reconfiguration during it. |
| BuildTree.CommitTheorem | framework/src/apatchy/utils/build_tree.py:29-104 | A hash file marks a complete, finished build with its own library in every state of a run, so root objects never pass for it and the library is never missing, if and only if no aborted deletion leaves the hash file behind. |
| BuildTree.HonestTheorem | framework/src/apatchy/utils/build_tree.py:29-85 | Over every run harmless to one of the promises about stored hashes, a normal return leaves a finished build storing the hash that was read, copied from roots with that hash only unless it is empty; if the promise is for all hashes, even then. |
| BuildTree.SteadyTheorem | framework/src/apatchy/utils/build_tree.py:42-54 | A root that keeps its hash from its being read to the end of the copy is enough for every promise about hashes but the one for empty ones. |
| BuildTree.FinishBuild | framework/src/apatchy/utils/build_tree.py:62-85 | A run past the fast path builds what was copied and commits the hash it read before copying. |
| BuildTree.ServeTree | framework/src/apatchy/utils/build_tree.py:34-60 | A tree with the right paths, the root's hash and a library is returned untouched, whatever else holds of it. |
| BuildTree.ReconfiguredBeforeCopy | framework/src/apatchy/utils/build_tree.py:44-54 | If the root is reconfigured after its hash is read and before it is copied, the stored hash is true if and only if the reconfiguration kept it. |
| BuildTree.FirstRunReachesCopy | framework/src/apatchy/utils/build_tree.py:34-54 | Every first run passes through that moment. |
| BuildTree.ReconfiguredDuringCopy | framework/src/apatchy/utils/build_tree.py:87-96 | The same for a reconfiguration during the copy. |
| BuildTree.EmptyHashAccepted | framework/src/apatchy/utils/build_tree.py:82-83 | A run aborted inside the hash write leaves an empty hash, which a root without a configuration line accepts; the tree it is served is a build of its configuration if and only if there was no hash to write. |
| BuildTree.FirstRunReachesWrite | framework/src/apatchy/utils/build_tree.py:34-83 | Every first run passes through the middle of the hash write. |
| BuildTree.TornWriteServed | framework/src/apatchy/utils/build_tree.py:34-83 | So, starting from nothing, a root without a configuration line can be served a build of another configuration. |
| BuildTree.TornDeleteLosesLibrary | framework/src/apatchy/utils/build_tree.py:39-53 | From any state about to delete a tree with a hash file, an aborted deletion can leave the hash file without a library. |
| BuildTree.TornDeleteLeaves | framework/src/apatchy/utils/build_tree.py:39-53 | An aborted deletion leaves no library, Makefile or hash file that was not there, and one that has removed the hash file does no harm. |
| BuildTree.TornDeleteServed | framework/src/apatchy/utils/build_tree.py:39-60 | Without atomic deletion, a partly deleted tree can be returned. |
| BuildTree.CleanNeeded | framework/src/apatchy/utils/build_tree.py:65-80 | Without cleaning, a library copied from the root would be taken for up to date and committed as built here. |
| AlternateBuildTree.AlternateBuildTree.constructor | framework/src/apatchy/utils/build_tree.py:23-27 | A fresh object over any honest state of the disk. |
| AlternateBuildTree.AlternateBuildTree.EnsureBuild | framework/src/apatchy/utils/build_tree.py:29-85 | Aborted anywhere, whatever an interrupted copy or build leaves behind, a run leaves an honest state the protocol reaches. A tree with the root's hash and right paths is returned as it was; any other tree, or none, becomes a finished build of a fresh copy with the root's hash, Makefile and rewritten paths. Five actions are enough for the first, fifteen for the second. |
| AlternateBuildTree.AlternateBuildTree.EnsurePaths | framework/src/apatchy/utils/build_tree.py:34-40 | A tree without a Makefile or with one that names its own directory stays; any other, or none, becomes a fresh copy. |
| AlternateBuildTree.AlternateBuildTree.EnsureCurrent | framework/src/apatchy/utils/build_tree.py:42-54 | A tree that stores the root's hash stays; any other becomes a fresh copy. |
| AlternateBuildTree.AlternateBuildTree.EnsureTree | framework/src/apatchy/utils/build_tree.py:87-96 | An existing tree is left alone; otherwise a full copy of the root with rewritten paths, its library and no hash file is made. |
| AlternateBuildTree.AlternateBuildTree.CopyTree | framework/src/apatchy/utils/build_tree.py:87-96 | Copying is two actions: dying between them leaves an incomplete tree without a hash file. |
| AlternateBuildTree.AlternateBuildTree.RemoveTreeIf | framework/src/apatchy/utils/build_tree.py:36-54 | A tree goes exactly if its paths are stale or its hash file is absent or different. |
| AlternateBuildTree.AlternateBuildTree.ConfigHash | framework/src/apatchy/utils/build_tree.py:44 | The hash kept for the rest of the run is the root's at this moment; the tree is unchanged. |
| AlternateBuildTree.AlternateBuildTree.IsReady | framework/src/apatchy/utils/build_tree.py:56-60 | The run is at its end exactly if library and hash file are both there; otherwise it goes on to the build. |
| AlternateBuildTree.AlternateBuildTree.Rebuild | framework/src/apatchy/utils/build_tree.py:62-83 | Patching, cleaning, building and committing, five actions a run can die before, change the library, the hash file and nothing else of the tree. |
| AlternateBuildTree.AlternateBuildTree.MakeClean | framework/src/apatchy/utils/build_tree.py:65 | Cleaning removes the library; dying there leaves any library and no finished build. |
| AlternateBuildTree.AlternateBuildTree.MakeAll | framework/src/apatchy/utils/build_tree.py:80 | Building makes a library only where there is none, and finishes a complete tree. |
| AlternateBuildTree.AlternateBuildTree.WriteHash | framework/src/apatchy/utils/build_tree.py:82-83 | Two actions: dying before the first leaves the tree as it was, before the second an empty hash, after it the hash. |
| Http1.BuildHttpRequest | framework/harnesses/proto_converters/http.cc:35-86 | The printed text: request line, named headers in order, default Host and Content-Length where missing, empty line, body. |
| Http1.PrintHeaders | framework/harnesses/proto_converters/http.cc:55-71 | Headers without a name are dropped, and the two flags say whether one is named Host or Content-Length as C strings compare. |
| Text.FoldCharIff | framework/harnesses/proto_converters/http.cc:67-70 | Names are compared without regard to the case of ASCII letters, and of nothing else. |
| Http1.PrintDefaults | framework/harnesses/proto_converters/http.cc:73-80 | Each default field is added exactly if missing, Content-Length only for a non-empty body. |
| Http1.RequestLineRead | framework/harnesses/proto_converters/http.cc:48-53 | A request line without inner spaces reads back as method, target and version. |
| Http1.FieldRead | framework/harnesses/proto_converters/http.cc:59-62 | A clean field's line reads back as its name and value. |
| Http1.FieldsRead | framework/harnesses/proto_converters/http.cc:55-82 | Any number of clean fields read back in order, and reading stops at the empty line. |
| Http1.HeadRead | framework/harnesses/proto_converters/http.cc:35-86 | The head of a clean request reads back whatever follows it, and the body's length is what the fields say. |
| Http1.OwnFramingIff | framework/harnesses/proto_converters/http.cc:55-80 | The printed fields give the body's length if and only if the request's own headers allow it: no Transfer-Encoding; every Content-Length a reader sees gives that length; and if it sees none, there is no body or nothing keeps the printer from adding one. |
| Http1.FramingIff | framework/harnesses/proto_converters/http.cc:55-85 | What a clean request asks for is read, whatever follows it, ending where it ended, if and only if its own headers frame it in that sense: its method, its target with a leading slash, its version or HTTP/1.1, its named headers in order followed by the missing defaults, and its body, all on the request's own fields. |
| Http1.HostIff | framework/harnesses/proto_converters/http.cc:67-74 | A reader finds a Host field if and only if the request brings one or none of its headers hides that name behind a NUL. |
| Http1.PrintedFields | framework/harnesses/proto_converters/http.cc:55-80 | The printed fields are the headers that have a name, one for one and in order, then Host and the body's length, each unless given. |
| Http1.TokenRead | framework/harnesses/proto_converters/http.cc:5-33 | Every method is printed as the token RFC 9110, RFC 5789 or RFC 4918 gives it. |
| Http1.HiddenLength | framework/harnesses/proto_converters/http.cc:67-80 | A header that is named Content-Length only as a C string suppresses the default length while a reader sees none, so with a body the request is not read back. |
| Http1.HiddenName | framework/harnesses/proto_converters/http.cc:69-70 | There is such a header: its name goes on after a NUL. |
| Http1.PlainIsOwnFraming | framework/harnesses/proto_converters/http.cc:67-80 | A request without a Content-Length or Transfer-Encoding of its own is framed. |
| Http1.CombineRequests | framework/harnesses/mod_fuzzy_proto_multi.cc:35-46 | The buffer is the concatenation of the first sixteen printed requests, or of all if fewer. |
| Http1.FuzzRequests | framework/harnesses/mod_fuzzy_proto_multi.cc:30-53 | No requests, no connection; with keep-alive one connection with that buffer; otherwise one connection for each of the first sixteen. |
| Http1.KeepAliveIff | framework/harnesses/mod_fuzzy_proto_multi.cc:41-46 | What clean requests on one connection ask for is read, request by request and nothing else, if and only if each one's own headers frame it. |
| Http1.KeepAliveTheorem | framework/harnesses/mod_fuzzy_proto_multi.cc:35-46 | Of requests without framing of their own what exactly the first sixteen ask for is read: method, target with a leading slash, version, fields and body. |
| MultiInput.FuzzMultiInput | framework/harnesses/mod_fuzzy_multi.c:31-56 | The loop over the input hands out exactly the segments, at most sixteen, and ends. |
| MultiInput.SegmentLength | framework/harnesses/mod_fuzzy_multi.c:38-45 | A segment is never empty while there is input. |
| MultiInput.SegmentsAreCut | framework/harnesses/mod_fuzzy_multi.c:37-53 | Segments concatenate to a prefix of the input, all of it unless the budget is used up, hold a blank line only at their ends, and stop at one if anything is left. |
| MultiInput.SplitIff | framework/harnesses/mod_fuzzy_multi.c:37-53 | Splitting a concatenation gives back its pieces if and only if they are of that form and within the budget. |
| Multipart.ApplyMultipart | framework/harnesses/proto_converters/multipart.cc:18-93 | In place, the request becomes what two searches for the blank line, one insertion and one replacement make of it. |
| MultipartBody.BuildBody | framework/harnesses/proto_converters/multipart.cc:23-73 | The body: the parts in order and the closing delimiter, or the fixed text of an empty part. |
| MultipartBody.BuildPart | framework/harnesses/proto_converters/multipart.cc:34-68 | One part's text; the two spacing branches print the same. |
| MultipartBody.BodyPrinted | framework/harnesses/proto_converters/multipart.cc:25-73 | A message without parts is printed as one part without fields or content. |
| MultipartBody.ContentRead | framework/harnesses/proto_converters/multipart.cc:40-60 | A part's text reads as its field and content if its field stays on one line. |
| MultipartBody.OnlyContentReads | framework/harnesses/proto_converters/multipart.cc:40-60 | Whatever start of a part's text reads as that field and content has its length, so nothing shorter or longer does. |
| MultipartBody.DashesBreak | framework/harnesses/proto_converters/multipart.cc:34-37 | With extra dashes no boundary reads as the part's delimiter: a reader that takes no preamble fails or ends there. |
| MultipartBody.StrictFakeBreaks | framework/harnesses/proto_converters/multipart.cc:62-66 | After a fake boundary a reader that takes neither a preamble nor a part without an empty line never reads the parts that follow as meant, whatever they hold. |
| MultipartBody.NeverCaughtUp | framework/harnesses/proto_converters/multipart.cc:62-66 | A reader that takes both is an empty part ahead after a fake boundary and stays ahead, if no part has extra dashes. |
| MultipartBody.FullFakeBreaks | framework/harnesses/proto_converters/multipart.cc:62-66 | So it does not read those parts as meant either. |
| MultipartBody.BodyReadIff | framework/harnesses/proto_converters/multipart.cc:23-73 | Every part's fields and content are recovered, in order and nothing else, if and only if no part asks for extra dashes or a fake boundary, every field stays on one line, and no part's text has the delimiter before its end: for messages without extra dashes by a reader of all of the grammar of section 5.1.1 of RFC 2046, preamble, padding and parts of fields alone included, and for every message by a strict one that takes none of these. |
| MultipartBody.WellFramedBodyRead | framework/harnesses/proto_converters/multipart.cc:23-73 | Parts that meet the condition are recovered by either reader, in every message. |
| MultipartBody.FullReaderMisled | framework/harnesses/proto_converters/multipart.cc:34-66 | With extra dashes the converse fails for the reader of all of the grammar: a part with dashes and a fake boundary can still come out as meant. |
| Multipart.FoundHead | framework/harnesses/proto_converters/multipart.cc:83-87 | What precedes the first blank line is a head: with an empty line it ends at its first blank line. |
| Multipart.HeadFound | framework/harnesses/proto_converters/multipart.cc:89 | A head is found again whatever text follows it. |
| Multipart.HeadLonger | framework/harnesses/proto_converters/multipart.cc:87-89 | A further line without a carriage return keeps it a head, so the second search ends after the inserted fields. |
| Multipart.PlainBoundary | framework/harnesses/proto_converters/multipart.cc:75-92 | For the nine boundaries without CR LF: the original head, Content-Type and Content-Length last, an empty line and exactly the body. |
| Multipart.CrlfBoundary | framework/harnesses/proto_converters/multipart.cc:75-92 | With the boundary CR LF the head ends after Content-Type and the length field is cut off. |
| Multipart.AppliedIff | framework/harnesses/proto_converters/multipart.cc:18-93 | For every request with a blank line the result is as intended if and only if the boundary is not CR LF; without a blank line nothing changes. |
| Multipart.AppliedRead | framework/harnesses/proto_converters/multipart.cc:75-92 | A printed request so edited reads back with its own fields and the two new ones last. |
| Multipart.ReadBackIff | framework/harnesses/proto_converters/multipart.cc:75-92 | It reads back with its own method, target, version and fields, then the two new ones with the boundary's text and the body's length, and exactly the new body, if every length it was printed with is the new one, as when it had no body, and is refused otherwise, because its own length field stays. |
| Multipart.PartsReadBackIff | framework/harnesses/proto_converters/multipart.cc:23-92 | Read with the boundary the message announces, the body of such a request has the parts that were asked for if and only if each of them keeps the framing. |
| Charset.BuildCharsetRequest | framework/harnesses/proto_converters/charset.cc:46-100 | The printed request: fixed fields, named extra headers, two chunks and the last chunk. |
| Charset.GrowDriver | framework/harnesses/proto_converters/charset.cc:67-73 | The growth loop ends with the smaller of the copies asked for and the fewest that reach 8192 octets. |
| Charset.Primer | framework/harnesses/proto_converters/charset.cc:54-58 | One to seven octets: the start of the given primer, or an escape if there is none. |
| Charset.DriverSize | framework/harnesses/proto_converters/charset.cc:60-73 | The driver has between 1 and 8191 octets plus one unit, and is cut short only past 8192. |
| Charset.DriverIsAsked | framework/harnesses/proto_converters/charset.cc:60-73 | The driver is the given unit, or an escape, repeated as often as asked for, once at least, but no more often than it takes to have 8192 octets. |
| Charset.HexRoundTrip | framework/harnesses/proto_converters/charset.cc:23-24 | A printed chunk size reads back, and has lower-case digits. |
| Charset.ChunkRead | framework/harnesses/proto_converters/charset.cc:21-29 | A chunk with data reads as its data and goes on; a chunk without ends the body there. |
| Charset.BodyDecodes | framework/harnesses/proto_converters/charset.cc:93-97 | For every input the body decodes by section 7.1 of RFC 9112 to two chunks, the primer and the driver, ending where it ended. |
| Charset.CharsetReadIff | framework/harnesses/proto_converters/charset.cc:46-100 | With clean extra headers what the request asks for is read if none of them is another Transfer-Encoding, and it is refused if one is: method, path of the translation, fixed and extra fields, a first chunk with up to seven octets of the primer, and a second one repeating the driver. |
| Octets.Octets2RoundTrip | framework/harnesses/proto_converters/http2.cc:14-18 | Sixteen-bit numbers are written most significant octet first. |
| Octets.Octets3RoundTrip | framework/harnesses/proto_converters/http2.cc:31-33 | The length field keeps the low 24 bits. |
| Octets.Octets4RoundTrip | framework/harnesses/proto_converters/http2.cc:20-26 | Thirty-two-bit numbers likewise. |
| Hpack.WriteHpackHeaders | framework/harnesses/proto_converters/http2.cc:42-55 | Named headers are appended as literal fields with lengths cut to seven bits. |
| Hpack.ShortBlockDecodes | framework/harnesses/proto_converters/http2.cc:42-55 | Headers of at most 126 octets a string decode by sections 5.1, 5.2 and 6.2.2 of RFC 7541. |
| Hpack.BlockDecodesIff | framework/harnesses/proto_converters/http2.cc:50-52 | They decode to themselves if and only if no string is longer. |
| Hpack.StringReadsCut | framework/harnesses/proto_converters/http2.cc:50-54 | A string reads as a start of it, as long as the low seven bits of its length say. |
| Http2.WriteFrameHeader | framework/harnesses/proto_converters/http2.cc:28-40 | Nine octets, the reserved bit cleared. |
| Http2.BuildSettingsPayload | framework/harnesses/proto_converters/http2.cc:57-87 | Six octets a setting, in order. |
| Http2.WriteFrame | framework/harnesses/proto_converters/http2.cc:89-174 | Each kind of frame with its type, flags, stream and payload; a message without a body prints nothing. |
| Http2.PingPayload | framework/harnesses/proto_converters/http2.cc:148-152 | Eight octets, cut or filled with zeros. |
| Http2.BuildHttp2Request | framework/harnesses/proto_converters/http2.cc:176-191 | The preface, given or default, and every frame in order. |
| Http2.FrameRoundTrip | framework/harnesses/proto_converters/http2.cc:28-40 | A decoder after section 4.1 of RFC 7540 recovers type, flags, 31-bit stream and a payload below 2^24 octets, and stops at the frame's end. |
| Http2.FrameReadsCut | framework/harnesses/proto_converters/http2.cc:28-40 | A longer payload is cut to the low 24 bits of its length, and the rest of it is read as what follows. |
| Http2.FramesReadIff | framework/harnesses/proto_converters/http2.cc:186-188 | A sequence of frames reads back if and only if every payload is below 2^24 octets. |
| Http2.ConnectionRead | framework/harnesses/proto_converters/http2.cc:176-191 | After the preface, the given one or that of section 3.5, a connection reads back as its frames in order under that condition and no other. |
| Http2.ConnectionMeans | framework/harnesses/proto_converters/http2.cc:176-191 | Under both conditions a whole connection reads as the messages that have a body, one for one and in order, each as it was asked for. |
| Http2.SettingsRoundTrip | framework/harnesses/proto_converters/http2.cc:57-87 | A settings payload reads back as its identifiers and values. |
| Http2.DependencyRoundTrip | framework/harnesses/proto_converters/http2.cc:155-165 | Exclusive flag, dependency and weight read back. |
| Http2.MeaningIff | framework/harnesses/proto_converters/http2.cc:89-174 | Read by section 6 of RFC 7540, a frame means what the message asked for, field by field, if and only if its header strings have at most 126 octets: settings by their identifiers in section 6.5.2, stream, flags, dependency and weight, error codes, probe and named headers in order. |
| Http2.SentAsRequired | framework/harnesses/proto_converters/http2.cc:89-174 | Frames leave unset the flags their kind does not define, send settings, pings and goaways on stream zero, and leave a window increment's reserved bit unset. |
| Ajp.EncodedHeaderCode | framework/harnesses/proto_converters/ajp.cc:64-92 | Known headers have codes 0xA001 to 0xA00B and only raw ones have none. |
| Ajp.AppendString | framework/harnesses/proto_converters/ajp.cc:47-52 | A sixteen-bit length, the string and a zero octet. |
| Ajp.WrapPacket | framework/harnesses/proto_converters/ajp.cc:54-62 | The packet mark, a length cut to sixteen bits and the payload. |
| Ajp.BuildHeadersPayload | framework/harnesses/proto_converters/ajp.cc:105-125 | Status, message, header count cut to sixteen bits and the headers in order. |
| Ajp.AddChunks | framework/harnesses/proto_converters/ajp.cc:130-144 | One packet for each non-empty chunk. |
| Ajp.BuildAjpResponse | framework/harnesses/proto_converters/ajp.cc:94-156 | The packets of the response's messages: an optional CPONG, headers, non-empty chunks, the end. |
| Ajp.PayloadSize | framework/harnesses/proto_converters/ajp.cc:94-156 | The size the decoder accounts for is the printed payload's length, for every message. |
| Ajp.PayloadRoundTrip | framework/harnesses/proto_converters/ajp.cc:94-156 | An encodable message of any of the four kinds is recovered from its payload. |
| Ajp.PacketRoundTrip | framework/harnesses/proto_converters/ajp.cc:54-62 | A payload of at most 65535 octets is recovered from its packet, which ends where it ended. |
| Ajp.PacketReadsCut | framework/harnesses/proto_converters/ajp.cc:54-62 | A longer payload is cut to the low sixteen bits of its length, and the rest of it is read as what follows. |
| Ajp.ResponseDecodesIff | framework/harnesses/proto_converters/ajp.cc:94-156 | What the response asks for is recovered, message by message and field by field, if and only if every payload fits and no literal header name's length lies in 0xA000..0xA0FF: the reply to a probe, status number, message, every header by its code or raw name, every non-empty chunk in order, and the end. |
| Grammar.Shortest | framework/src/apatchy/fuzzers/grammar.py:37-38 | The first of the productions no other is shorter than. |
| Grammar.FirstTerminal | framework/src/apatchy/fuzzers/grammar.py:49-51 | The first production without non-terminals is found if and only if there is one. |
| Grammar.DerivesSideBySide | framework/src/apatchy/fuzzers/grammar.py:42 | Expanding tokens one by one and joining the results is a derivation of the whole. |
| Grammar.ExpandConforms | framework/src/apatchy/fuzzers/grammar.py:33-53 | For every choice sequence, at every depth: the expansion is derived from its symbol, spelled out, bounded by the levels left plus two, and terminal if the grammar is grounded. |
| Grammar.GenerateTheorem | framework/src/apatchy/fuzzers/grammar.py:29-53 | A generated text is spelled by a sentential form of the start symbol with at most k^(max_depth+2) tokens, terminal whenever each non-terminal has an all-terminal production. |
| Grammar.ExpandFollows | framework/src/apatchy/fuzzers/grammar.py:33-42 | Expansion with the choices of a derivation tree, read off in preorder, yields exactly that tree's tokens and uses exactly those choices. |
| Grammar.GenerateReaches | framework/src/apatchy/fuzzers/grammar.py:29-42 | Conversely, every derivation tree of the start symbol within the depth limit is generated by some choice sequence. |
| Grammar.TerminalsTerminalIff | framework/src/apatchy/fuzzers/grammar.py:36-53 | At the depth limit the result is terminal if and only if each token of the shortest production is terminal or has an all-terminal production. |
| Grammar.LimitEnds | framework/src/apatchy/fuzzers/grammar.py:36-53 | At the depth limit no choice is used: a non-terminal becomes its first shortest production, each token of which becomes itself, its first all-terminal production, or its first shortest one. |
| Grammar.ExpandSucceeds | framework/src/apatchy/fuzzers/grammar.py:33-53 | Expansion raises only if some non-terminal has no productions. |
| Grammar.GenerateSeeds | framework/src/apatchy/fuzzers/grammar.py:67-87 | Written seeds are the first occurrences among the draws, at most the number asked for, and fewer only after three times as many draws or a raise. |
| Grammar.GenerateIff | framework/src/apatchy/fuzzers/grammar.py:71-80 | A draw is the expansion of the start symbol twelve levels deep, and fails if and only if that raises or spells a character outside latin-1. |
| Grammar.DrawsConform | framework/src/apatchy/fuzzers/grammar.py:75-84 | Every seed drawn, and so every one written, is spelled by such a sentential form. |
| LinkSelection.SelectLinkTargets | framework/src/apatchy/managers/introspector_manager.py:303-334 | Without a listing tool every file is linked; with it, chosen, skipped and seen symbols are those of the greedy choice, seen symbols being exactly the chosen files' with a file that defines each. |
| LinkSelection.ListSymbols | framework/src/apatchy/managers/introspector_manager.py:317-321 | The third words of the lines of at least three words whose second is T, D or B. |
| LinkSelection.AnySeen | framework/src/apatchy/managers/introspector_manager.py:322-326 | A conflict is a symbol already seen. |
| LinkSelection.Record | framework/src/apatchy/managers/introspector_manager.py:330-331 | Every symbol is recorded with the file, and no other record changes. |
| LinkSelection.ConflictIff | framework/src/apatchy/managers/introspector_manager.py:322-329 | The seen table finds a conflict if and only if some earlier chosen file shares a symbol. |
| LinkSelection.SelectionTheorem | framework/src/apatchy/managers/introspector_manager.py:303-334 | No two chosen files' listings define the same symbol, every file is chosen or skipped once, and each skipped one defines a symbol that an earlier chosen one defines. |
| LinkSelection.ChosenIff | framework/src/apatchy/managers/introspector_manager.py:322-329 | A file is chosen if and only if no chosen file before it has a line defining a symbol that one of its own lines defines. |
| LinkSelection.TargetsInOrder | framework/src/apatchy/managers/introspector_manager.py:304-332 | The targets are the chosen files in their given order. |
| LinkSelection.Maximal | framework/src/apatchy/managers/introspector_manager.py:327-329 | No skipped file could be linked as well. |
| LinkSelection.UnlistedChosen | framework/src/apatchy/managers/introspector_manager.py:333-334 | A file whose symbols could not be listed, or that defines none, is always linked. |
| LinkSelection.OwnerUnique | framework/src/apatchy/managers/introspector_manager.py:330-332 | A seen symbol is defined by exactly one chosen file, the one it is recorded with. |

## Left out

- Call graph construction: the graph is an input; a function is its name, names being unique, and the caller of a call record is the function that owns it. A record's site is present when it has a call instruction with a debug location.
- Function metadata, JSON output and console output of the walker; metadata is a record of six fields.
- Apache and APR beyond the two brigade operations: they are written out as functions over the bucket sequence. The line split never waits, because only heap and end-of-stream buckets occur. Merging of small adjacent buckets in the output brigade is not modelled, so the model's output is the same octets possibly in more buckets.
- The hook that may insert a bucket into the client's network brigade, the connection set-up and the backend socket pair.
- BuildTree: the tree's contents are reduced to what the protocol looks at; path rewriting is part of finishing a copy. Flag patching is one action without effect on what is proved, and compiler flags do not take part in deciding staleness, as in the source.
- AlternateBuildTree: reconfiguration by somebody else during a run and a deletion aborted half-way are in the protocol, not in the object, whose root stays fixed and whose deletions are whole.
- Http1.FramingIff: the reader refuses a Content-Length field that holds a list of equal numbers, which section 8.6 of RFC 9110 lets a recipient refuse or accept.
- Charset.CharsetReadIff: the reader takes a Transfer-Encoding field of empty list elements for another coding, where section 5.6.1 of RFC 9110 has recipients skip them.
- The other branches of report generation: running the tools, overlaying per-function coverage, writing the report.
- HTTP/2 decoding of Huffman-coded and indexed header fields, padding and flow control: the printer never emits them. Reading a continuation's headers joins no fragments; each block is read on its own.
- Ajp: the request builders and the default response, whose packets are built from the same helpers.
- Charset: what the translation module does with the chunks.
- Octets are characters: strings stand for byte strings, and sizes are not bounded by the machine's word except where the source narrows them.
- Grammar: reading the grammar file and writing seed files; a negative count, which writes nothing, is not distinguished from zero; nothing is said about which choices are likely.
- LinkSelection: running the listing tool; its output is given as words line by line.
- MultipartBody.BodyReadIff: for messages with extra dashes the converse is for a reader that takes neither a preamble, nor padding behind a boundary, nor a part without an empty line; which of those messages a reader of all of the grammar happens to recover is not characterised.
