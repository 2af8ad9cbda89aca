# Vespasian: a verified model of its algorithmic core

Vespasian discovers web APIs: it crawls pages with several workers, imports recorded traffic, reads
JavaScript and HTML for further endpoints, classifies and deduplicates what it saw, and asks gRPC
servers for their descriptors. This project models the parts of it that are algorithms rather than
input and output, and proves what they are meant to keep. `dafny verify dfyconfig.toml` checks
everything.

- **The concurrent crawl.** `Frontier.dfy` is the URL queue, as a value with atomic steps and as a
  class over a Go slice. `CrawlProtocol.dfy` is the step system of N workers of either engine;
  `CrawlSafety.dfy`, `CrawlRecord.dfy`, `CrawlStop.dfy`, `CrawlTermination.dfy`, `CrawlReach.dfy` and
  `CrawlDepth.dfy` prove what holds in all runs: no lost wakeup, no deadlock, exact budgets, which
  results are stored, termination, and which pages are visited; `CrawlMiss.dfy` is a crawl that
  misses a page. Page visits are an oracle; normalisation and scope
  are arbitrary functions.
- **Tnetstrings.** `Tnetstring.dfy` specifies encoder and both decoders, `TnetRoundTrip.dfy` and
  `TnetAgreement.dfy` relate them, `TnetGrammar.dfy` and `TnetWire.dfy` say what is accepted and what it
  denotes, `TnetReader.dfy` and `TnetEncoder.dfy` run them as loops over
  readers and buffers with a meter of allocations, and `NativeImport.dfy` is the importer's loop.
- **gRPC and Protocol Buffers.** `GrpcWire.dfy` (varints bit by bit), `GrpcFields.dfy` (tags and
  fields), `GrpcFrames.dfy` (length-prefixed messages), `DescriptorWalk.dfy` (the budgeted walk
  over imports) and `DescriptorCap.dfy` (when its byte cap holds).
- **Deduplication.** `MergeUnique.dfy`, `Dedup.dfy`, and `DedupKeys.dfy` (what merges and what is kept).
- **JavaScript text.** `JsScan.dfy` (literals), `JsArgs.dfy` (argument lists), `JsLiterals.dfy` (what
  both recognise), `JsExact.dfy` (that they recognise nothing else), `JsChain.dfy` and `JsOperands.dfy`
  (chains of operands), `ConcatPath.dfy` and `ConcatBytes.dfy` (cleaning a path).
- **The CONNECT dial.** `ConnectDial.dfy` (the race of dial, watcher and cancellation) and
  `ConnectReader.dfy` (the capped header and the tunnel after it).
- **HTML forms.** `Forms.dfy` (the token machine), `FormFields.dfy` (which fields a form gets),
  `FormValues.dfy` (textareas and selects), `FormParser.dfy` (the same with pointers into growing slices).
- `ByteStrings.dfy` holds byte strings, their order and decimal numerals; `Basics.dfy` facts about
  sets, sequences and numbers.

In each part a function says what is computed; a method written as the source is written is proved
to compute it; and lemmas prove what it means.

Some results differ from what the source or its comments suggest:

- `cleanConcatPath` is not idempotent. It is on every accepted path except where a `//` stands in
  the scheme part and only slashes follow the `://` (`CleanTwice`, `CleanTwiceDiffers`).
- `ParseVarint` cannot return its "exceeds 10 bytes" error: the tenth byte decides first
  (`RunParseVarint`).
- The descriptor byte cap can be passed, by less than the size of one file: exactly when one crosses
  it in the order of a walk that counts files only, and never if all that is reached fits
  (`CapPassed`, `CapIsPassed`, `FittingStaysWithin`).
- `preferredResponse` depends on argument order exactly where two responses differ in nothing but
  headers, which its comparison ignores (`PreferredIsExactlySymmetric`, `PreferredKeepsFirst`).
- `Deduplicate` can lose a path that holds a colon, since its keys join their parts with colons
  (`ColonMergesPaths`); without colons none is lost (`PathsSurvive`).
- `Deduplicate` keeps the first observation's `IsAPI` even where a later one's verdict replaces
  Confidence, APIType and Reason (`FoldIsApi`, `FoldMixesVerdicts`).
- `scanStringLiteral` would not be stable under a change of what follows a literal if it were
  called on a backslash; on every other byte it is (`StableExactly`, `BackslashUnstable`).
- A stray `</textarea>` inside a `<select>` closes it, and can leave the internal marker as the field's
  value: exactly when a selected option is open and none was picked before it, or when the value
  picked trims to the marker (`MarkerLeft`, `MarkerIsParsed`, `MarkerIsParsedFromValue`).
- Out of breadth-first order a crawl can miss pages within its depth limit, because a page first
  met on a detour keeps the detour's depth (`MissesU`); `DepthCoverage` says exactly when, and
  `NoDetoursCover` names sites on which it cannot.

## Model

| member | source | states |
|---|---|---|
| `Frontiers.AcceptedIsExact` | pkg/crawl/frontier.go:58-96 | Push enqueues only entries it was given that pass the depth limit, normalise and are in scope; their normalised URLs are new and distinct; and afterwards every admissible entry given is in seen |
| `Frontiers.UrlFrontier.PushEntries` | pkg/crawl/frontier.go:58-96 | on the slice and map, Push changes the frontier exactly as the step Push does (nothing once closed; a broadcast only if something was added) and returns the number added |
| `Frontiers.UrlFrontier.PopOnce` | pkg/crawl/frontier.go:121-167 | one pass of the Pop loop: the last entry (LIFO) or the first (FIFO), counted active in the same critical section; else finished when idle or closed; else asleep |
| `Frontiers.UrlFrontier.TakeFirst` | pkg/crawl/frontier.go:136-151 | a FIFO pop removes the first entry, leaves no stale entry in the backing array, and keeps the capacity within four times what is queued |
| `Frontiers.UrlFrontier.TakeLast` | pkg/crawl/frontier.go:128-134 | a LIFO pop removes the last entry and clears its slot |
| `Frontiers.UrlFrontier.SetIdle` | pkg/crawl/frontier.go:172-179 | MarkIdle lowers the active count and wakes all sleepers exactly when it reaches zero with the queue empty |
| `Frontiers.UrlFrontier.CloseDown` | pkg/crawl/frontier.go:183-188 | Close marks the frontier closed and wakes all sleepers |
| `Frontiers.UrlFrontier.SetDFS` | pkg/crawl/frontier.go:104-108 | only the order changes |
| `CrawlProtocol.StepInv` | pkg/crawl/engine.go:246-312 | every step of either worker loop, of an oracle, of cancellation and of closing keeps the whole invariant: exact active count, justified sleep, unique ownership, no repeats, exact budget, justified exits, at most one visit and one record for an entry |
| `CrawlSafety.ReachableInv` | pkg/crawl/engine.go:246-312 | so the invariant holds in every state of every run from a seeded frontier, for any number of workers, both engines and any interleaving |
| `CrawlSafety.NoLostWakeup` | pkg/crawl/frontier.go:121-188 | active equals the number of workers between Pop and MarkIdle, and an un-notified sleeper implies an empty open queue and another worker still processing a page |
| `CrawlSafety.NoDeadlock` | pkg/crawl/engine.go:246-312 | if visits come back, then until every worker has exited some worker can take a step |
| `CrawlSafety.Partition` | pkg/crawl/frontier.go:79-89 | queued, in-flight and finished entries have pairwise distinct normalised URLs, whose union is seen |
| `CrawlSafety.ExhaustedForGood` | pkg/crawl/frontier.go:152-162 | once a worker has been told that an open frontier is exhausted, nothing is queued or in flight, and nothing is popped, visited, recorded or seen in any continuation |
| `CrawlSafety.RodBudget` | pkg/crawl/engine.go:231-276 | the browser engine never visits more than MaxPages pages, pops at most MaxPages plus one entry a worker, visits no entry twice, and gives up for want of budget only when all of it is spent |
| `CrawlSafety.HttpBudget` | pkg/crawl/http_crawler.go:245-255 | the HTTP engine stores results one for one with its page count, at most maxPages, none twice, and cancels itself exactly when the last one is stored; which entries they belong to is StoredExactly and FailedIsNotStored |
| `CrawlRecord.StoredIsFetched` | pkg/crawl/http_crawler.go:243-255 | in every run, at any moment, a result is stored only for an entry whose fetch some worker took as successful |
| `CrawlRecord.StoredExactly` | pkg/crawl/http_crawler.go:243-255 | when all workers have exited and the cap was not reached, results are stored for exactly the entries whose fetch succeeded in the run |
| `CrawlRecord.FailedIsNotStored` | pkg/crawl/http_crawler.go:243-255 | an entry whose fetch failed is never stored, was fetched in no other way, and adds nothing to the page count |
| `CrawlStop.StopsSoon` | pkg/crawl/engine.go:246-276 | once the context is cancelled or the page budget spent, no more entries are popped than there are workers that had already looked, so at most one each |
| `CrawlTermination.MeasureDrops` | pkg/crawl/engine.go:246-312 | with a depth limit each step (wake-and-recheck included) lowers a lexicographic measure: pages outstanding per depth, then queue length, environment actions and worker phases |
| `CrawlTermination.BudgetMeasureDrops` | pkg/crawl/engine.go:231-276 | so does each step of the browser engine with a page budget and no depth limit |
| `CrawlTermination.EveryCrawlEnds` | pkg/crawl/frontier.go:66-90 | no infinite sequence of states is a run, though pages yield any finite number of links and nothing caps the pages |
| `CrawlTermination.AllWorkersExit` | pkg/crawl/engine.go:246-312 | hence a scheduler that keeps stepping while some worker has not exited reaches the state where all have |
| `CrawlReach.EverythingIsReachable` | pkg/crawl/frontier.go:58-96 | for any order, worker count, failures and cancellation, every queued or popped entry is reachable from the seed in as many link hops as its depth, which is within maxDepth |
| `CrawlDepth.WholeReachableSet` | pkg/crawl/engine.go:301-310 | in any order and with any number of workers, if no chain of links through distinct pages is longer than the depth limit and nothing else cuts the crawl short, a normalised URL is popped if and only if it is reachable, and every popped entry is visited once (browser) or its result stored up to the cap (HTTP) |
| `CrawlDepth.FewPagesSuffice` | pkg/crawl/frontier.go:67-72 | so it is when at most maxDepth plus one pages are reachable |
| `CrawlDepth.EntriesAreChained` | pkg/crawl/frontier.go:67-72 | in every run each queued or popped entry ends a chain of as many links as its depth, through distinct pages all seen |
| `CrawlDepth.DepthCoverage` | pkg/crawl/frontier.go:67-72 | an undisturbed crawl under a depth limit, in any order, pops every page within maxDepth hops if and only if no page popped at the limit but nearer than it has an admissible link that was never seen; and it visits or stores all it popped |
| `CrawlDepth.NoDetoursCover` | pkg/crawl/frontier.go:67-72 | it pops every page within maxDepth hops, in any order and with any number of workers, if each chain of maxDepth links to a page nearer than that ends at a page with links to pages of that chain only, which depends on the site alone |
| `CrawlMiss.MissesU` | pkg/crawl/frontier.go:128-134 | a depth-first crawl of five pages by one worker that ends without a page three hops away though maxDepth is three |
| `CrawlSafety.EveryPageStored` | pkg/crawl/http_crawler.go:240-255 | if no fetch fails, the HTTP engine ends with a result for every entry popped, or with as many as its cap allows |
| `CrawlReach.QuietEnd` | pkg/crawl/engine.go:301-310 | a crawl whose workers have all exited ended undisturbed, with an empty queue, if nothing was cancelled or closed and the page budget is not used up |
| `CrawlReach.BreadthFirstIsExact` | pkg/crawl/frontier.go:121-167 | one worker in FIFO order pops exactly the pages within maxDepth hops, in order of distance, each at its shortest distance, and visits or stores each |
| `CrawlReach.EndOfCrawl` | pkg/crawl/engine.go:301-310 | at the end of an undisturbed crawl every popped page has had all its admissible links queued, no worker gave an entry up, and each entry was visited or its result stored |
| `TnetRoundTrip.RoundTrip` | internal/tnetenc/tnetenc.go:43-83 | decoding an encoded value followed by anything returns the value (strings as bytes) and consumes exactly its encoding, with either decoder, for every value within the caps |
| `TnetRoundTrip.ReadsWrapped` | internal/tnetenc/tnetenc.go:88-96 | a payload wrapped with its decimal length and marker is read back whole whatever follows |
| `TnetEncoders.RunEncode` | internal/tnetenc/tnetenc.go:43-83 | the encoder in loops (sorting keys, appending to buffers) writes the specified encoding |
| `TnetEncoders.SortStrings` | internal/tnetenc/tnetenc.go:68-80 | keys are put in the one increasing order |
| `TnetEncoders.SortingIsUnique` | internal/tnetenc/tnetenc.go:68-80 | a set of keys has only one increasing arrangement, so the encoding of a map does not depend on iteration order |
| `TnetAgreement.DecodersAgree` | pkg/importer/tnetstring.go:102-189 | on every byte string the stream and the bounded decoder both accept, with the same value and the same bytes consumed, or both refuse |
| `TnetAgreement.PrefixIndependent` | pkg/importer/tnetstring.go:102-123 | the answer does not change when the bytes after the element do |
| `TnetAgreement.DecodedFits` | pkg/importer/tnetstring.go:252-342 | whatever is decoded fits the caps again and encodes in no more bytes than it came from |
| `TnetAgreement.AcceptedRoundTrips` | pkg/importer/tnetstring.go:252-342 | so every accepted input can be encoded and decoded again without change |
| `TnetGrammar.DecodesSpelling` | pkg/importer/tnetstring.go:102-342 | either decoder returns a value and moves n bytes if and only if those bytes spell it: a length of one to nine digits, a colon, that many bytes, and one of the eight markers, read as that marker says, within all caps |
| `TnetWire.WireRoundTrip` | pkg/importer/tnetstring.go:252-342 | every value within the caps, written with its own marker (text with ; and bytes with ,), decodes to itself with either decoder, whatever follows it, alone or in lists and dicts, whose keys may be marked either way |
| `TnetWire.EncodeSpells` | internal/tnetenc/tnetenc.go:43-96 | what the encoder writes spells the value, text as bytes |
| `ByteStrings.CompareIs` | internal/tnetenc/tnetenc.go:68-80 | the order of keys, and of response bodies, is by the first byte that differs, a string before its extensions |
| `ByteStrings.ParseIntIs` | pkg/importer/tnetstring.go:262-267 | an integer payload is accepted with value n exactly when it is an optional sign and a numeral of it within int64 |
| `ByteStrings.DecimalIs` | internal/tnetenc/tnetenc.go:88-96 | the numeral written is the one without leading zeros |
| `TnetReaders.ReadLengthPrefix` | pkg/importer/tnetstring.go:203-250 | the prefix loop returns the specified length or error, moving past exactly the prefix: one to nine digits, leading zeros allowed, and a colon, within the cap and the bound given |
| `TnetReaders.DecodeStream` | pkg/importer/tnetstring.go:102-162 | the stream reader returns what the specification says, moves past exactly the element, allocates at its own level at most the element's payload and at each further level no more than at the one above, so at most 65 payloads in all |
| `TnetReaders.DecodeInner` | pkg/importer/tnetstring.go:168-189 | the same for the bounded reader |
| `TnetReaders.RunPayload` | pkg/importer/tnetstring.go:252-294 | payload dispatch on the marker, recursing one level down on lists and dicts, returns the specified value; what value, marker by marker, is DecodesSpelling |
| `TnetReaders.RunItems` | pkg/importer/tnetstring.go:296-310 | the list loop returns the specified list or the first error, its entry cap included, within the container's bytes |
| `TnetReaders.RunPairs` | pkg/importer/tnetstring.go:312-342 | the dict loop does, with later pairs overriding earlier ones |
| `TnetReaders.TotalAllocation` | pkg/importer/tnetstring.go:168-189 | payload buffers at each nesting level total at most those at the level above, so an element allocates at most 65 times its own payload, accepted or rejected |
| `ByteStrings.ValueOfDecimal` | pkg/importer/tnetstring.go:203-250 | a decimal numeral reads back as its number |
| `ByteStrings.ParseOfFormat` | internal/tnetenc/tnetenc.go:56-59 | so do the numerals of signed integers, including the most negative |
| `NativeImport.ImportNative` | pkg/importer/mitmproxy.go:195-246 | the loop over concatenated flows returns what the specification says on every input |
| `NativeImport.ImportsDump` | pkg/importer/mitmproxy.go:195-246 | importing any concatenation of encoded flow dicts returns the conversions of the HTTP flows in order, unless there are more than 500,000 flows, and then fails |
| `NativeImport.ImportsWireDump` | pkg/importer/mitmproxy.go:195-246 | so does importing flows written with all eight markers: those whose type is http, as text or bytes and under a key of either kind, are converted as they were, text still text, and all others skipped |
| `GrpcWire.RunParseVarint` | internal/grpcwire/frame.go:96-116 | the loop of shifts, ors and masks on 64 bits computes the sum of the low seven bits with weights 128^i or the right error; its "exceeds 10 bytes" error is never returned |
| `GrpcWire.VarintAccepts` | internal/grpcwire/frame.go:96-116 | an input is accepted with length n exactly when its first n bytes are a varint: one to ten bytes, all but the last continuing, and a sum below 2^64 |
| `GrpcWire.VarintRefuses` | internal/grpcwire/frame.go:96-116 | it is refused as truncated exactly when fewer than ten bytes are left and all continue, and as overflowing exactly when nine continue and the tenth exceeds 1 |
| `GrpcWire.JoinAppends` | internal/grpcwire/frame.go:109 | or-ing in the shifted group equals adding it: no bits meet and none is lost past the 64th |
| `GrpcWire.VarintRoundTrip` | internal/grpcwire/frame.go:96-116 | every uint64 is decoded from its shortest encoding, whatever follows |
| `GrpcWire.EncodeVarintShortest` | internal/grpcwire/frame.go:96-116 | that encoding is no longer than any other encoding of the value |
| `GrpcFields.TagAccepts` | internal/grpcwire/frame.go:126-142 | a tag of n bytes is parsed exactly when those bytes are a varint that holds a field number from 1 to 2^29-1 above a wire type of three bits, and exactly that number and type are returned |
| `GrpcFields.TagRefuses` | internal/grpcwire/frame.go:126-142 | each error is returned exactly when the message starts with a varint below 8, or with one of at least 8 times 2^29, or with no varint at all |
| `GrpcFields.RunWalkFields` | internal/grpcwire/frame.go:155-207 | the loop makes exactly the specified calls to the callback, whose answers may depend on the calls so far, and returns the specified error |
| `GrpcFields.WalkTiles` | internal/grpcwire/frame.go:155-207 | a message is walked to its end with the given calls if and only if tag bytes, length prefixes and values of those fields tile it without gap or overlap |
| `GrpcFields.VisitedTilesFront` | internal/grpcwire/frame.go:155-207 | however a walk ends, the fields visited tile the front of the message, and an error is the one met at the first byte they leave |
| `GrpcFields.WalkRoundTrip` | internal/grpcwire/frame.go:155-207 | walking the encoding of any valid list of fields visits exactly that list |
| `GrpcFrames.RunParseFrames` | internal/grpcwire/frame.go:55-66 | the loop returns the specified frames and error |
| `GrpcFrames.FramesWrittenBack` | internal/grpcwire/frame.go:38-66 | writing the frames back and appending the unparsed tail gives the input if and only if every flag byte is 0 or 1, and always has its length |
| `GrpcFrames.TailIsUnparsed` | internal/grpcwire/frame.go:55-66 | the tail holds no frame and names the error; there is none exactly when nothing is left; and each frame is compressed exactly when its flag byte is not zero |
| `GrpcFrames.FramesRoundTrip` | internal/grpcwire/frame.go:38-66 | any list of frames written out, followed by unparsable bytes or nothing, parses back |
| `GrpcFrames.PutUint32RoundTrip` | internal/grpcwire/frame.go:42 | four big-endian bytes come back from their number |
| `GrpcFrames.FrameExactly` | internal/grpcwire/frame.go:38-50 | a frame of n bytes is returned if and only if the input starts with a flag byte, four bytes whose big-endian value is the message length, and the message; it is compressed when the flag is not zero |
| `GrpcFrames.FrameRefuses` | internal/grpcwire/frame.go:38-50 | the header is truncated exactly below five bytes, and the body exactly when fewer bytes follow than that length |
| `MergeUnique.MergeUniqueOrdered` | pkg/classify/classifier.go:342-374 | the two loops with their early returns compute the first 256 values of the order-preserving deduplication of a followed by b |
| `MergeUnique.MergeAssociative` | pkg/classify/classifier.go:342-374 | merging is associative in spite of the cap |
| `MergeUnique.MergedOnTheLeft` | pkg/classify/classifier.go:342-374 | truncating the left operand to 256 distinct values loses nothing the result needs |
| `MergeUnique.MergedOnTheRight` | pkg/classify/classifier.go:342-374 | nor does truncating the right operand |
| `MergeUnique.MergeValues` | pkg/classify/classifier.go:342-374 | the result is distinct, at most 256 long, made of values of a and b, and has all of them when there are at most 256 |
| `Dedup.RunDeduplicate` | pkg/classify/classifier.go:113-266 | the map-and-order-slice loop refines grouping by key in first-seen order and folding each group, for parsed and unparsed URLs alike; what shares a key is said by the rows of DedupKeys |
| `DedupKeys.MethodsSurvive` | pkg/classify/classifier.go:122-178 | where methods hold no colon, different ones never merge: each observation's method is that of some entry |
| `DedupKeys.PathsSurvive` | pkg/classify/classifier.go:122-178 | where URLs parse and paths hold no colon either, each observation's method and path are those of one entry |
| `DedupKeys.AlikeMerge` | pkg/classify/classifier.go:122-178 | no two entries have the same method, path, SOAPAction and body (media type and fingerprint), whatever their hosts and queries, nor the same method and unparseable URL: such observations always merge |
| `DedupKeys.OneEntryEach` | pkg/classify/classifier.go:122-178 | of requests without colons in method and path, whose bodies come with a plain media type and whose SOAPActions with bodies, each has exactly one entry that is like it in all of these |
| `DedupKeys.UsualPair` | pkg/classify/classifier.go:122-178 | two such requests become one entry if and only if they are alike |
| `DedupKeys.BodilessPair` | pkg/classify/classifier.go:144-146 | under one method and path, requests without a body become one entry if and only if their SOAPActions are equal |
| `DedupKeys.LabelledPair` | pkg/classify/classifier.go:148-178 | with bodies and plain media types, if and only if SOAPAction, media type and fingerprint are |
| `DedupKeys.UnparsedPair` | pkg/classify/classifier.go:122-131 | observations of unparseable URLs become one entry if and only if method and URL are equal |
| `DedupKeys.ColonMergesPaths` | pkg/classify/classifier.go:136-146 | a path p:x and a path p with the SOAPAction x become one entry, so the condition on paths is needed |
| `DedupKeys.EntriesAreObserved` | pkg/classify/classifier.go:122-200 | each entry has the method, URL, headers and body of one observation |
| `DedupKeys.HighestConfidence` | pkg/classify/classifier.go:235-247 | no observation of a group has a higher confidence than its entry, and among those of the same confidence none an API type, or with the same type a reason, that comes later |
| `DedupKeys.FirstDocumented` | pkg/classify/classifier.go:249-257 | the entry's response has a status, content type or body if any observation's has, and none of those comes before it by status, then content type, then body |
| `DedupKeys.MergeKeysIs` | pkg/classify/classifier.go:385-398 | merged multi-value keys are those of the entry and the true ones of the observation, which become true; nil only if both are |
| `Dedup.RunAbsorb` | pkg/classify/classifier.go:202-257 | one merge into an entry: parameters, multi-value keys, verdict and response |
| `Dedup.RunMergeInto` | pkg/classify/classifier.go:204-211 | parameter values are merged key by key, in whatever order the map is iterated |
| `Dedup.OrderIndependent` | pkg/classify/classifier.go:113-266 | for parseable URLs the same observations in any order and multiplicity give the same keys and, under each, the same (Confidence, APIType, Reason), the same response up to headers, and the same multi-value keys |
| `Dedup.FoldVerdict` | pkg/classify/classifier.go:235-247 | the verdict kept is some observation's and none in the group is better |
| `Dedup.FoldIsApi` | pkg/classify/classifier.go:235-247 | IsAPI stays the first observation's |
| `Dedup.FoldMixesVerdicts` | pkg/classify/classifier.go:235-247 | so where a later observation's verdict is kept, IsAPI goes with it exactly when the first one agrees |
| `Dedup.FoldResponse` | pkg/classify/classifier.go:249-257 | the response kept is some observation's and none in the group is preferred to it |
| `Dedup.FoldMulti` | pkg/classify/classifier.go:385-398 | a key is multi-value exactly when some observation of the group says so |
| `Dedup.FoldParams` | pkg/classify/classifier.go:204-211 | the values kept for a parameter are the first 256 distinct ones ever seen under the key once a second observation mentions it, and until then all of the first observation's |
| `Dedup.DeduplicateTwice` | pkg/classify/classifier.go:113-266 | deduplicating a result changes nothing |
| `Dedup.ResponsesAreOrdered` | pkg/classify/classifier.go:290-304 | CompareResponses is a total order up to headers |
| `Dedup.PreferenceIsOrdered` | pkg/classify/classifier.go:315-327 | so is the preference for populated responses built on it |
| `Dedup.PreferredIsSymmetric` | pkg/classify/classifier.go:315-327 | up to headers, which of two responses is kept does not depend on which was seen first |
| `Dedup.PreferredIsExactlySymmetric` | pkg/classify/classifier.go:315-327 | headers included it does not if and only if the two have equal headers or differ in something else |
| `Dedup.PreferredKeepsFirst` | pkg/classify/classifier.go:315-327 | two responses that differ in a header only, of which the first given is kept |
| `Dedup.VerdictsAreOrdered` | pkg/classify/classifier.go:235-242 | the tie-break on (Confidence, APIType, Reason) is a total order |
| `DescriptorWalk.Accumulator.WalkFileDescriptors` | pkg/probe/grpc.go:396-419 | the recursion over shared maps and counter computes the specified walk |
| `DescriptorWalk.WalkKeepsBudget` | pkg/probe/grpc.go:396-419 | at most 1000 files are fetched, totalBytes is the sum of the sizes in out, and it passes its cap by less than one file |
| `DescriptorCap.CapPassed` | pkg/probe/grpc.go:396-419 | the byte counter ends above its cap if and only if some file crosses it in the depth-first order of a walk that counts files but not bytes |
| `DescriptorCap.WalkTakes` | pkg/probe/grpc.go:396-419 | a walk takes the files of that order up to the first point at which the counter is at its cap or above |
| `DescriptorCap.FittingStaysWithin` | pkg/probe/grpc.go:396-419 | it stays within its cap if what the file reaches fits beside what is kept |
| `DescriptorCap.CapIsPassed` | pkg/probe/grpc.go:396-419 | 22 files of 3 MiB, each but the last importing the next, end 2 MiB above it |
| `DescriptorWalk.WalkFetchesClosure` | pkg/probe/grpc.go:396-419 | from a closed set and unless a counter reaches its cap, fetched becomes the old set plus exactly what the file reaches, cycles included, and is closed again |
| `DescriptorWalk.WalkAdds` | pkg/probe/grpc.go:396-419 | whatever the budgets, nothing fetched is lost and everything new is reached from the file |
| `DescriptorWalk.WalkKeepsAll` | pkg/probe/grpc.go:409-414 | each fetched file is in out as serialised, or absent exactly when serialising it fails |
| `DescriptorWalk.RunReflection` | pkg/probe/grpc.go:352-390 | the loop over services computes the specified enumeration |
| `DescriptorWalk.EnumerateKeepsBudget` | pkg/probe/grpc.go:352-390 | the budgets hold after any list of services |
| `DescriptorWalk.EnumerateReaches` | pkg/probe/grpc.go:352-390 | only what the listed services' files reach is fetched, and the services found are the first of those described |
| `DescriptorWalk.EnumerationIsComplete` | pkg/probe/grpc.go:352-390 | unless a cap is reached, all described services are found and exactly the files they reach are fetched |
| `JsScan.FindTemplateLiteralEnd` | pkg/crawl/jsreplay.go:1190-1237 | the scan with its recursion into nested literals finds the specified closing backtick; its guard against a negative brace depth never fires |
| `JsScan.ScanStringLiteral` | pkg/crawl/jsreplay.go:1629-1652 | the scan finds the specified closing quote |
| `JsScan.LiteralEndStable` | pkg/crawl/jsreplay.go:1629-1652 | a literal that starts on anything but a backslash and ends at e in one text ends at e in every text with the same first e+1 bytes |
| `JsScan.StableExactly` | pkg/crawl/jsreplay.go:1629-1652 | so it is for every opening byte if and only if it is not a backslash |
| `JsScan.BackslashUnstable` | pkg/crawl/jsreplay.go:1629-1652 | three bytes from a backslash to a backslash, and one more after them, that end nowhere |
| `JsScan.TemplateEndLocal` | pkg/crawl/jsreplay.go:1190-1237 | and wherever those bytes stand |
| `JsScan.LiteralEndShift` | pkg/crawl/jsreplay.go:1629-1652 | texts alike from the literal to their ends are scanned alike, whether it ends or not |
| `JsLiterals.TemplateLiteralEnds` | pkg/crawl/jsreplay.go:1190-1237 | a well-formed template literal, its interpolations holding any nesting of braces and further template literals, ends at its own closing backtick, wherever it stands |
| `JsLiterals.StringLiteralEnds` | pkg/crawl/jsreplay.go:1629-1652 | a well-formed string literal, escapes included, ends at its own closing quote, wherever it stands |
| `JsExact.StringExactly` | pkg/crawl/jsreplay.go:1629-1651 | from a double or single quote the scan ends at e if and only if a well-formed string literal stands from there to e |
| `JsExact.TemplateExactly` | pkg/crawl/jsreplay.go:1190-1234 | from a backtick, if and only if a well-formed template literal does, with interpolations, braces and template literals nested to any depth |
| `JsArgs.FindConcatArgListEnd` | pkg/crawl/jsreplay.go:1385-1447 | the counter loop over the clamped window finds the specified closing bracket |
| `JsExact.BalancedIsDelimited` | pkg/crawl/jsreplay.go:1385-1448 | balanced text of up to 499 bytes before its closing bracket, with commas, nested brackets and literals in it, is delimited by that bracket, wherever it stands |
| `JsExact.DelimitedInReach` | pkg/crawl/jsreplay.go:1385-1448 | what is delimited ends at a closing round bracket within 500 bytes |
| `JsArgs.SplitConcatArgs` | pkg/crawl/jsreplay.go:1456-1516 | the builder loop splits as specified |
| `JsArgs.SplitJoins` | pkg/crawl/jsreplay.go:1456-1516 | joining the pieces with commas gives the list back, up to one trailing comma |
| `JsArgs.DelimitedSplits` | pkg/crawl/jsreplay.go:1456-1516 | on a list that findConcatArgListEnd delimited the malformed branch is never taken, and each piece is one whole argument: balanced and without a separating comma |
| `JsArgs.JoinSplits` | pkg/crawl/jsreplay.go:1456-1516 | any whole arguments, joined with commas, split into themselves |
| `JsLiterals.BalancedIsWhole` | pkg/crawl/jsreplay.go:1456-1516 | text with its brackets balanced and its literals closed is one whole argument, commas inside brackets or literals notwithstanding |
| `JsChain.ParsePlusChain` | pkg/crawl/jsreplay.go:1562-1594 | the loop over operands computes the specified text |
| `JsOperands.ReadsTerm` | pkg/crawl/jsreplay.go:1601-1622 | a string literal, escapes included, or a template literal without interpolation contributes its own text; a template literal with one, and any other expression with its brackets balanced and its literals closed, the sentinel; and reading ends where the operand does |
| `JsChain.ScanIdentifierOperand` | pkg/crawl/jsreplay.go:1658-1699 | the counter loop ends an operand at the first terminator outside brackets and literals |
| `JsChain.ChainReadsWindow` | pkg/crawl/jsreplay.go:1562-1594 | the result depends on the 1024 bytes from start and nothing before or after |
| `JsOperands.PlusChainReads` | pkg/crawl/jsreplay.go:1562-1594 | a chain of such operands, with white space around the plus signs, reads as what the first 16 of them contribute, one after the other, wherever it stands |
| `ConcatPath.CleanConcatPath` | pkg/crawl/jsreplay.go:1872-1959 | the function with its loops computes the specified result |
| `ConcatPath.CollapseSlashes` | pkg/crawl/jsreplay.go:1878-1887 | replacing // by / until none is left ends and makes every run of slashes one |
| `ConcatPath.CleanParts` | pkg/crawl/jsreplay.go:1915-1916 | of what is accepted, the suffix is unchanged and the path before it ends in no slash |
| `ConcatBytes.KeptExactly` | pkg/crawl/jsreplay.go:1872-1959 | a path is returned as it is if and only if it has no slash at its end and no // but before or in its first ://, holds an API indicator, and all its bytes are acceptable: printable, none of the refused ones, ?#=& only in the suffix, escapes of printable bytes only |
| `ConcatBytes.RefusedExactly` | pkg/crawl/jsreplay.go:1872-1959 | a path is refused if and only if, tidied, it is empty, has no API indicator, or holds an unacceptable byte |
| `ConcatBytes.RunsMerge` | pkg/crawl/jsreplay.go:1878-1887 | a slash more in a run of slashes makes no difference to what it collapses to |
| `ConcatPath.CleanTwice` | pkg/crawl/jsreplay.go:1872-1959 | cleaning an accepted path again changes nothing if and only if it is not unstable: no // inside a scheme that only slashes follow |
| `ConcatPath.CleanTwiceDiffers` | pkg/crawl/jsreplay.go:1872-1959 | api//:// is cleaned to api//: and that to something else |
| `ConcatPath.ScanEscapedBytes` | pkg/crawl/jsreplay.go:1975-2038 | the index loop accepts exactly the byte strings allowed |
| `ConcatPath.CleanIsPrintable` | pkg/crawl/jsreplay.go:1992-2038 | every byte of an accepted path is printable ASCII, before and after percent-decoding |
| `ConnectDial.StepInv` | pkg/httpx/proxy_client.go:165-229 | every step of the dialing goroutine, the watcher, the peer and cancellation keeps the invariant on mutex, flag, channel and connection |
| `ConnectDial.ReturnIsSafe` | pkg/httpx/proxy_client.go:165-263 | in every interleaving a successful dial returns an open connection that nothing closes later, and every failed or cancelled one leaves it closed for good; which of the three it is is DialOutcome |
| `ConnectDial.DialOutcome` | pkg/httpx/proxy_client.go:204-262 | a dial that returned had a handshake that ended or failed, not both; it returned Cancelled exactly when it saw its context cancelled, and otherwise Success exactly when the handshake ended |
| `ConnectDial.DialSucceeds` | pkg/httpx/proxy_client.go:237-262 | with nothing cancelled a dial succeeds if and only if the proxy let its handshake end, and fails if and only if the peer failed it |
| `ConnectDial.RunsAreBounded` | pkg/httpx/proxy_client.go:204-227 | every run is bounded, so every dial and its watcher end or wait |
| `ConnectDial.StopsOnlyWhenDone` | pkg/httpx/proxy_client.go:204-227 | nothing can go on by itself exactly when both goroutines have ended, or the dial waits for its peer with the connection open and the context live; so a cancelled dial always ends |
| `ConnectReader.ConnectHandshake` | pkg/httpx/proxy_client.go:294-322 | however the reply arrives, the handshake succeeds exactly when the header is complete within 64 KiB and has status 200, and the tunnel then holds exactly the bytes after it |
| `ConnectReader.ReadResponse` | pkg/httpx/proxy_client.go:294-300 | the buffered, capped reader hands the parser exactly the header and no more |
| `ConnectReader.Tunnel.Read` | pkg/httpx/proxy_client.go:318-322 | reads of the tunnel deliver those bytes in order, first the prefix, then the connection |
| `FormParsers.RunParseForms` | pkg/analyze/forms.go:141-197 | with forms behind pointers, slices that grow by copying and a pending pointer into the innermost form's array, parseForms computes the specified forms; what their fields are is FieldsAreTags |
| `FormFields.FieldsAreTags` | pkg/analyze/forms.go:289-411 | on every token stream, each returned form has its tag's action, method and enctype, and its fields are, in order, those of the input, textarea and select tags taken while it was the innermost form, each with its tag's name, lowered type, value, placeholder, required, hidden and sensitive |
| `FormFields.SecretsAreBlank` | pkg/analyze/forms.go:348-364 | no hidden or password field of a returned form has a value |
| `FormParsers.FormParser.HandleToken` | pkg/analyze/forms.go:149-185 | each token keeps the pending pointer on the last field of the innermost form, in the array that form still uses, and changes the forms exactly as specified |
| `FormParsers.FormParser.HandleOpenTag` | pkg/analyze/forms.go:369-411 | the pointer taken right after the append names the new field |
| `FormParsers.FormParser.HandlePendingText` | pkg/analyze/forms.go:218-225 | text written through the pointer reaches the form |
| `FormParsers.FormParser.HandlePendingEndTag` | pkg/analyze/forms.go:242-287 | closing an option, select or textarea writes through the pointer and clears it |
| `FormParsers.FormParser.FlushUnclosed` | pkg/analyze/forms.go:189-197 | unclosed forms follow the results innermost first, an open select resolved |
| `Forms.EachFormOnce` | pkg/analyze/forms.go:141-197 | each form start tag that is taken is returned as exactly one form, and nothing else is |
| `Forms.ParsedFormsAreCapped` | pkg/analyze/forms.go:32-38 | at most 1000 forms, 500 fields in each and 4096 bytes in each value, whatever the tokens |
| `FormValues.TextareaGathers` | pkg/analyze/forms.go:218-256 | until it is closed an open textarea gathers the first 4096 bytes of all text into its own field, and nothing else of any form changes |
| `FormValues.TextareaCloses` | pkg/analyze/forms.go:242-256 | its end tag trims that value and closes it |
| `FormValues.SelectChooses` | pkg/analyze/forms.go:201-287 | whatever tokens stand before its end tag, a select gets the value picked among the options closed there, or else the first one's, or nothing, and nothing else of any form changes |
| `FormValues.PickIsFirst` | pkg/analyze/forms.go:201-216 | unless a value is the internal marker, the value picked is that of the first option marked as selected that has one |
| `FormValues.SelectReads` | pkg/analyze/forms.go:201-287 | until it is closed an open select changes its own field only, and holds the options closed so far |
| `FormValues.SelectCutShort` | pkg/analyze/forms.go:242-256 | a textarea end tag closes a select too, and its field keeps what it holds, trimmed |
| `FormValues.MarkerLeft` | pkg/analyze/forms.go:242-256 | that is the internal marker if and only if a selected option is open and none closed before it was picked, or the value picked trims to the marker |
| `FormValues.MarkerLeftPlainly` | pkg/analyze/forms.go:242-256 | where no option has or trims to the marker, exactly when a selected option is open and no option closed before it was selected and had a value |
| `FormValues.MarkerIsParsed` | pkg/analyze/forms.go:141-197 | a form with one selected option that is never closed, whose select is returned with the marker as its value |
| `FormValues.MarkerIsParsedFromValue` | pkg/analyze/forms.go:141-197 | another, whose only option is closed and has a value that trims to the marker |

## Left out

- CrawlTermination.EveryCrawlEnds: the order may not be switched during the run (SetDFS is called before the workers start); the page cap of the HTTP engine alone does not bound a crawl without a depth limit, since failed fetches do not count, and is not claimed to.
- CrawlReach.BreadthFirstIsExact: assumes, as WholeReachableSet and DepthCoverage do, that links and scope respect normalisation, that visits succeed, and that the crawl ends undisturbed: the queue empty, the frontier not closed, and, in the browser engine, no entry given up for want of budget and no cancellation. A crawl that ends on exactly its last budgeted page is covered; so is an HTTP crawl that its own cap cancels, if the fetches under way still succeed.
- CrawlReach.EverythingIsReachable: a visit yields only links of its page; how links are extracted is the oracle's business.
- CrawlSafety.NoDeadlock: visits are assumed to come back; timeouts of a visit are part of the oracle.
- TnetReaders.TotalAllocation: counts the bytes of payload buffers, not spare capacity: the stream reader's first growth of up to 1 MB and the doubling of buffers after it are not counted.
- TnetRoundTrip.RoundTrip: a float is the text it is written as, and which texts are floats is a parameter; the strconv conversion between the two is not modelled.
- NativeImport.ImportsDump: turning a flow's dict into a request (flowFromNativeState, parseFlow) is a parameter that returns a request or fails.
- GrpcFields.RunWalkFields: the callback is a function of the calls made so far; slices handed to it are values, so their aliasing of the message is not modelled.
- Dedup.OrderIndependent: unparseable URLs are not covered (they keep one entry per raw key and never merge); response headers, the representative request and IsAPI follow first-seen order by design.
- Dedup.RunDeduplicate: looking up SOAPAction is a function of the headers, whereas the source ranges over a map, so that with several case variants of that name its key depends on the run; requests are values, so that an entry made from an unparseable URL shares its maps with the caller's is not modelled; url.Parse, header lookup, media types and body hashes are parameters, and fields that are only carried along are omitted.
- MergeUnique.MergeUniqueOrdered: nil and empty results are the same.
- DescriptorWalk.WalkFetchesClosure: assumes that a name belongs to one file, as within one reflection client; without that, the budgets still hold.
- DescriptorWalk.EnumerationIsComplete: says nothing about a run that reached a cap beyond EnumerateReaches and EnumerateKeepsBudget.
- JsArgs.SplitConcatArgs: parseConcatArgs, which trims the pieces and substitutes the sentinel, is not modelled.
- JsArgs.JoinSplits: an empty last argument is excluded, because the source drops it.
- JsScan.LiteralEndStable: excludes scans that start on a backslash, where it fails (BackslashUnstable); the source starts on quotes only.
- ConcatPath.CleanConcatPath: hasAPIIndicator, a regular expression, is a parameter; IndexAny, Cut, Contains, ReplaceAll and TrimRight are functions on byte strings.
- ConnectDial.ReturnIsSafe: what the caller does with a returned connection is outside the model; deadlines are failures the peer may cause at any time.
- ConnectReader.ConnectHandshake: http.ReadResponse is a parser that asks for bytes until it has a header; writing the request and deadlines are not modelled.
- Forms.EachFormOnce: the position of a form's start tag stands for its identity; the source has no such field.
- JsOperands.PlusChainReads: malformed chains are covered by ParsePlusChain only; white space between an expression and a plus sign on the same line counts as part of the expression, as in the source.
- FormParsers.RunParseForms: tokens are given; TrimSpace, ToLower and isSensitiveName are parameters; characters stand for bytes.
- synthesizeRequest, resolveAction and the rest of form handling: URL resolution by the library.
- Chrome control, network capture, HTTP clients, TLS, DNS, proxies: foreign calls.
- REST, WSDL, GraphQL and gRPC scoring: one-branch facts.
- Logging, error texts, wall-clock limits, the command line and the SDK.
