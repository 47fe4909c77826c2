# A verified model of Busbar's core

Busbar is an LLM gateway. This project models the parts of it that have to be right whatever is sent,
scheduled or configured, and proves what they promise:

- **Telemetry** (`TelemetryCounters`, `TelemetryHistograms`, `SlotTable`): per-thread counter cells and
  sample buffers, a scrape that reads them one at a time while the owners keep running, and the intern
  table that hands out slots. The concurrent half is a state machine whose actions are single atomic
  accesses; a run is any sequence of enabled actions, so every interleaving is covered.
- **AWS event stream** (`EventStreamHeaders`, `EventStream`, `EventStreamEncoder`): the incremental frame
  decoder, its typed-header scanner, and the encoder they invert.
- **SigV4** (`Calendar`, `UriCodec`, `SigV4Canonical`, `SigV4`, `SigV4Authorization`,
  `SigV4Binding`): the Gregorian
  arithmetic of timestamps, URI encoding, canonical headers, signing, Authorization parsing and inbound
  verification.
- **Cost and limits** (`CostLimits`, `BucketIds`, `CostChain`, `CostEnforcement`, `CostSpend`): compiling
  limits into buckets, walking the group tree, deriving spend.
- **Ledger** (`Ledger`): floor-at-zero counters into which a fleet of nodes flushes signed deltas.
- **Credential cache** (`CredentialCache`): a bounded TTL cache refined against an unbounded history.
- **Scanners** (`Base64`, `JsonDepth`): base64 and the JSON nesting guard.

Code that updates state is a class or a method with loops, tied by its `ensures` to a specification
function; the theorems are about those functions. `Base`, `Text` and `Utf8` hold what the modules share.

Where the code and its comments disagree, the code is followed:

- `cost_nanos` is described as unable to overflow u128 (`crates/busbar/src/cost.rs:80-81`). Each product
  cannot; the sum of four can. `CostSpend.SumExactIff` gives the exact condition,
  `CostSpend.SafeRatesFit` the rates that always meet it, and `CostSpend.LargeRatesCanDeriveFree` a
  ledger that derives to zero in a build that wraps. There spend can fall as tokens rise
  (`CostSpend.SpendCanFall`); `CostSpend.MonotoneExactlyWhen` says exactly for which ledgers it cannot.
- Bucket ids are plain concatenation. Two groups can share an id exactly when one group's name spells out
  the other's followed by `@`, a window word and `#` (`BucketIds.CollideExactlyWhenShadowed`).
- An additive flush is exact for deltas that name each model once; a delta that names one twice is applied
  row by row, and the floor can bite between its rows (`Ledger.RepeatedModelCanMiscount`).
  `Ledger.ExactIffInRangeRowByRow` covers every delta.
- A label value that contains the separator byte can take another label set's key
  (`SlotTable.SeparatorInValueCollides`). Two label sets share a key exactly when their separator-free
  parts agree (`SlotTable.KeysAgreeIffAtomsAgree`); among separator-free sets that is equality.
- The signer lower-cases header names by Unicode and the verifier by ASCII. A request sent just as it was
  signed is refused when a name holds a non-ASCII capital (`SigV4.UnicodeNameIsRefused`);
  `SigV4.MismatchExactlyWhenMissing` gives the exact condition for every set of names.

## Model

| member | source | states |
|---|---|---|
| TelemetryCounters.NothingCountedTwice | crates/busbar/src/telemetry.rs:404-434 | Over every interleaving of adds, registrations, interning and scrapes: the recorder holds exactly `flushed` between pushes, never more than the amounts of the finished adds (read off the actions alone), which the cells hold exactly, and a torn sum about to be pushed lies between what was already flushed and what was added |
| TelemetryCounters.FlushCoversFinishedAdds | crates/busbar/src/telemetry.rs:404-434 | A completed scrape has pushed at least the amounts of all adds that finished before it began and at most those finished by its end, whatever ran beside it |
| TelemetryCounters.RunKeepsInv | crates/busbar/src/telemetry.rs:133-149 | In every reachable state each slot's cells sum to exactly what was emitted and the running scrape owes no slot anything it has already pushed |
| TelemetryCounters.StepKeepsInv | crates/busbar/src/telemetry.rs:215-228 | Every single action (registration of a thread, load, store, each scrape access) keeps that invariant |
| TelemetryCounters.FlushPushKeepsInv | crates/busbar/src/telemetry.rs:421-434 | Pushing a delta and storing `flushed` keeps it, although the two are separate steps |
| TelemetryCounters.FlushReadKeepsInv | crates/busbar/src/telemetry.rs:416-428 | Reading one thread's cell moves it from the part still owed to the part summed, without wrap-around |
| TelemetryCounters.AddGrowsItsCell | crates/busbar/src/telemetry.rs:133-149 | The store that ends an add grows its thread's cell of the slot by the amount the add was called with, and no other cell |
| TelemetryCounters.RunAccounts | crates/busbar/src/telemetry.rs:133-149 | In every reachable state the finished and the pending adds are those of the action list |
| TelemetryCounters.NeverStuck | crates/busbar/src/telemetry.rs:404-434 | The action guards hide no run: registering, adding any amount to any slot, a pending store and the scrape's next access are always possible |
| TelemetryCounters.FlushToRecorder | crates/busbar/src/telemetry.rs:404-434 | The scrape loop, run alone, ends with the recorder equal to what was emitted in every slot |
| TelemetryCounters.SlotsHaveOwnCells | crates/busbar/src/telemetry.rs:137-143 | Distinct slots map to distinct (chunk, offset) cells within the chunk table |
| TelemetryHistograms.DeliveredExactlyOnce | crates/busbar/src/telemetry.rs:166-185 | Over every run, including slots interned and threads registered between the thread list and the drain, each sample of the record actions is delivered, buffered, or in flight exactly once, through the scrape and the overflow drain alike, and no buffer reaches 65,536 samples |
| TelemetryHistograms.QuiescentMeansAllDelivered | crates/busbar/src/telemetry.rs:437-459 | With nothing buffered or in flight, the delivered multiset is the recorded multiset |
| TelemetryHistograms.DrainLeavesOnlyNewer | crates/busbar/src/telemetry.rs:409-459 | When a scrape closes, what any thread still has buffered is the last part of what it recorded since the scrape listed the threads |
| TelemetryHistograms.DrainCoversFinishedRecords | crates/busbar/src/telemetry.rs:409-459 | When a scrape closes, every sample recorded before it listed the threads has been delivered or is in its thread's own overflow hand-over |
| TelemetryHistograms.QuietFlushDeliversAll | crates/busbar/src/telemetry.rs:437-459 | A scrape during which nothing is recorded reaches the quiet state: with no overflow batch left, delivered and recorded multisets agree |
| TelemetryHistograms.NeverStuck | crates/busbar/src/telemetry.rs:166-185 | The action guards hide no run: recording, handing over and the scrape's next step are always possible |
| TelemetryHistograms.StepConserves | crates/busbar/src/telemetry.rs:377-396 | Every action, including each hand-over of an overflow batch, conserves every sample of every slot |
| TelemetryHistograms.RecordBuffersUntilFull | crates/busbar/src/telemetry.rs:166-185 | A sample is buffered until the buffer would reach 65,536, and then the whole buffer is taken in order |
| SlotTable.SlotRegistry.Intern | crates/busbar/src/telemetry.rs:259-300 | Interning finds the known slot, appends a dense new id, or refuses at the cap; index and descriptors stay in bijection and existing slots stay put |
| SlotTable.BuildKey | crates/busbar/src/telemetry.rs:265-272 | The loop builds the separator-joined key of name and labels |
| SlotTable.SameSlotIffSameAtoms | crates/busbar/src/telemetry.rs:259-300 | Over every registration history, two registrations that got slots share one exactly when their separator-free parts agree, which for separator-free label sets is equality; ids are below the cap and known sets still resolve when the table is full |
| SlotTable.GivenSticks | crates/busbar/src/telemetry.rs:273-300 | A slot once given names the same key for good; a refusal means the table was full and stays full |
| SlotTable.HistoryConsistent | crates/busbar/src/telemetry.rs:243-300 | Index and descriptor table are one bijection after every history |
| SlotTable.KeyIdentifiesLabelSet | crates/busbar/src/telemetry.rs:84-84 | Over separator-free label sets, equal keys mean equal label sets |
| SlotTable.KeysAgreeIffAtomsAgree | crates/busbar/src/telemetry.rs:265-272 | Any two label sets have the same key if and only if splitting all their texts at the separator gives the same parts |
| SlotTable.HasTwinExactlyWhen | crates/busbar/src/telemetry.rs:265-272 | Some other label set takes a set's key if and only if it has three parts or more, as every set with a label has |
| SlotTable.TakesPlainKeyExactlyWhen | crates/busbar/src/telemetry.rs:265-272 | A set that holds a separator takes the key of a separator-free one if and only if its parts are odd in number |
| SlotTable.SeparatorInValueCollides | crates/busbar/src/telemetry.rs:265-272 | A concrete label value that takes the key of a separator-free label set |
| EventStreamHeaders.ParseFrameHeaders | crates/busbar/src/eventstream.rs:214-280 | The cursor loop computes the recursive header scan of the block |
| EventStreamHeaders.TruncatedBlock | crates/busbar/src/eventstream.rs:214-280 | For every list of typed headers and every truncation of its bytes, the scan returns the last UTF-8 value of each of the three names among the headers that arrived whole |
| EventStreamHeaders.WholeIsMaximal | crates/busbar/src/eventstream.rs:214-280 | The headers counted as whole fit the cut, and one more does not |
| EventStreamHeaders.ReadCut | crates/busbar/src/eventstream.rs:222-262 | A header cut anywhere is never read as whole |
| EventStreamHeaders.ReadWhole | crates/busbar/src/eventstream.rs:222-280 | A whole header of any of the ten value types is read back with its name, value and size |
| EventStreamHeaders.UnknownKindStops | crates/busbar/src/eventstream.rs:222-262 | A value type outside the ten ends the scan |
| Utf8.ValidExactlyEncodings | crates/busbar/src/eventstream.rs:263-278 | A header value counts as a string exactly when it encodes some sequence of Unicode scalar values (section 3 of RFC 3629) |
| EventStream.StreamBuffer.DrainFramesChecked | crates/busbar/src/eventstream.rs:83-129 | The loop yields the frames, status, remainder, sink and consumed count of the recursive drain, and empties the buffer on a malformed prelude |
| EventStream.TakeFrame | crates/busbar/src/eventstream.rs:104-127 | A complete front is sliced into exactly its event type and payload |
| EventStream.DrainConserves | crates/busbar/src/eventstream.rs:83-129 | On `Ok`, sink plus remainder is the input and the remainder is under 16 MiB; on a malformed prelude the sink is the valid prefix, which drains to the same frames |
| EventStream.DrainAppend | crates/busbar/src/eventstream.rs:83-129 | Draining what arrived and then the rest is draining it all; a malformed verdict is final |
| EventStream.FrontAppend | crates/busbar/src/eventstream.rs:88-103 | Later bytes cannot change the verdict on a front that has one |
| EventStream.ChunkingDoesNotMatter | crates/busbar/src/eventstream.rs:83-129 | Any split into chunks gives the frames, status, remainder and sink of one drain |
| EventStream.LastTokenMeaning | crates/busbar/src/eventstream.rs:164-194 | The bare exception name is the last delimiter-free stretch, followed by delimiters only; it is absent exactly for a name made of delimiters |
| EventStream.FrameTypeMeaning | crates/busbar/src/eventstream.rs:164-204 | For every header list and every truncation: the event type is the last stretch of the exception name without `#` and `/`, first octet lowered, when the message type is `exception` and a name is there, otherwise the event-type header, otherwise empty |
| EventStream.NormalizedUnique | crates/busbar/src/eventstream.rs:164-204 | A name has one such token |
| EventStreamEncoder.PushStringHeader | crates/busbar/src/eventstream.rs:295-313 | A string header is appended in wire form exactly when name and value fit, and otherwise nothing is |
| EventStreamEncoder.FrameClose | crates/busbar/src/eventstream.rs:426-466 | Backfilling the prelude and appending payload and checksum yields the frame's bytes, or nothing over the cap |
| EventStreamEncoder.EncodeFrame | crates/busbar/src/eventstream.rs:320-344 | An event frame is emitted exactly when its type and size fit |
| EventStreamEncoder.EncodeExceptionFrame | crates/busbar/src/eventstream.rs:352-375 | An exception frame is emitted exactly when its type and size fit |
| EventStreamEncoder.RoundTrip | crates/busbar/src/eventstream.rs:320-375 | Any list of messages, encoded, concatenated and delivered in any chunks, decodes to the meanings of exactly those that fit, in order, with nothing left over; an exception means its name's last stretch with the first octet in lower case |
| EventStreamEncoder.FrameBytesDecode | crates/busbar/src/eventstream.rs:426-466 | A frame's bytes are one frame and decode to its own header block and payload |
| EventStreamEncoder.ChecksumsCover | crates/busbar/src/eventstream.rs:426-466 | The prelude checksum covers the two lengths, the message checksum all that precedes it, and the lengths are those of the frame and its header block |
| EventStreamEncoder.ThreeHeaders | crates/busbar/src/eventstream.rs:320-375 | The header block is the name, the content type and the message type, each a type-7 string, in that order |
| EventStreamEncoder.BigEndian | crates/busbar/src/eventstream.rs:426-466 | Lengths are big-endian |
| EventStreamEncoder.HeadersResolve | crates/busbar/src/eventstream.rs:164-194 | The decoder resolves the three headers the encoder writes to the event name or the bare exception name |
| EventStreamEncoder.ExceptionNameIsNormalized | crates/busbar/src/eventstream.rs:164-204 | An encoded exception decodes to one frame with its payload and its name's last stretch, equal from the second octet on and with the first in ASCII lower case |
| EventStreamEncoder.ExceptionIsNeverDropped | crates/busbar/src/eventstream.rs:352-375 | An exception with a non-empty type never decodes to the empty token |
| Calendar.CivilIsCounted | crates/busbar/src/sigv4.rs:125-146 | The closed-form date of every day from the epoch on is the date reached by counting one day at a time under the Gregorian leap rule |
| Calendar.CivilInvertsDays | crates/busbar/src/sigv4.rs:385-398 | The two closed forms are inverse on every valid date from 1970 on |
| Calendar.NextDayAddsOne | crates/busbar/src/sigv4.rs:385-398 | The day number of the next calendar day is one more, across months, years and centuries |
| Calendar.YearOfEra | crates/busbar/src/sigv4.rs:131-136 | The year-of-era formula undoes the day-of-era formula, leap days included |
| Calendar.FormatParseRoundTrip | crates/busbar/src/sigv4.rs:357-398 | Parsing a formatted epoch returns it for every epoch below 253402300800, and `None` from then on |
| Calendar.FormatMeaning | crates/busbar/src/sigv4.rs:125-146 | The timestamp spells the counted year, month and day, `T`, and the hours, minutes and seconds since midnight, `Z`, in that order |
| Calendar.ParsesExactly | crates/busbar/src/sigv4.rs:357-398 | A text of the right shape is read field by field and refused exactly when a field is out of range or the instant precedes the epoch |
| Calendar.ParsedShape | crates/busbar/src/sigv4.rs:357-380 | Only eight digits, `T`, six digits, `Z` can be read |
| Calendar.DecimalText | crates/busbar/src/sigv4.rs:368-376 | Fields are decimal, most significant digit first |
| Calendar.YearBound | crates/busbar/src/sigv4.rs:125-146 | The year takes five digits exactly from that instant on |
| Calendar.StampIsPrefix | crates/busbar/src/sigv4.rs:125-146 | The date stamp is the first eight characters of the timestamp |
| UriCodec.UriEncodePath | crates/busbar/src/sigv4.rs:79-100 | The loop computes the byte-wise path encoding |
| UriCodec.UriEncodeQuery | crates/busbar/src/sigv4.rs:105-121 | The loop computes the byte-wise query encoding, slash included |
| UriCodec.PercentDecode | crates/busbar/src/observability.rs:199-217 | The loop of stride one or three computes the recursive decoding, leaving malformed escapes as they are |
| UriCodec.DecodedAt | crates/busbar/src/observability.rs:203-216 | At every index an escape with two hexadecimal digits is one octet, and anything else stands for itself |
| UriCodec.DecodeUndoesEncode | crates/busbar/src/observability.rs:199-217 | Decoding undoes both encoders on every string |
| UriCodec.EncodersInjective | crates/busbar/src/sigv4.rs:79-121 | Both encoders are injective |
| UriCodec.EncodedCanonical | crates/busbar/src/sigv4.rs:79-121 | Encoded text is unreserved characters, upper-case `%XX` triples and, in paths only, slashes (section 2.3 of RFC 3986) |
| UriCodec.KeptOctets | crates/busbar/src/sigv4.rs:79-121 | Exactly letters, digits, `-`, `.`, `_`, `~` and, in paths, `/` stand for themselves; every other octet becomes `%` and its two digits |
| UriCodec.DigitValues | crates/busbar/src/observability.rs:199-217 | Exactly the hexadecimal digits of either case are read, as their values |
| SigV4Canonical.CanonicalizeHeaderValue | crates/busbar/src/sigv4.rs:153-170 | The flag-driven loop yields the value's words one ASCII space apart |
| SigV4Canonical.PaddingIsIgnored | crates/busbar/src/sigv4.rs:153-170 | Space padding on either side does not change the canonical value |
| SigV4Canonical.SpacingIsCollapsed | crates/busbar/src/sigv4.rs:153-170 | Whatever runs of ASCII spaces stand between, before and after them, a value's words are signed one space apart |
| SigV4Canonical.SortSorts | crates/busbar/src/sigv4.rs:189-200 | Sorting the headers orders them by name and keeps their multiset |
| SigV4Canonical.SortIsStable | crates/busbar/src/sigv4.rs:189-200 | Headers of one name keep their order |
| SigV4Canonical.LeqMeaning | crates/busbar/src/sigv4.rs:200-200 | The order is that of the first differing character, a prefix coming first |
| SigV4Canonical.LowerMeaning | crates/busbar/src/sigv4.rs:462-477 | ASCII lower-casing moves the 26 capitals and nothing else |
| SigV4Canonical.SortIdempotent | crates/busbar/src/sigv4.rs:189-200 | A sorted list is left as it is |
| SigV4Canonical.SignedFrom | crates/busbar/src/sigv4.rs:189-200 | Under any lower-casing, the signed list is sorted and consists of exactly the given headers, folded |
| SigV4.SignedRequestIsAccepted | crates/busbar/src/sigv4.rs:435-510 | A request signed over names without `;` that include host is accepted within 300 s whenever the arriving request holds each folded name in any ASCII case with a value of the same canonical form, in any order, among any others |
| SigV4.MismatchExactlyWhenMissing | crates/busbar/src/sigv4.rs:462-477 | Within the skew, the header check refuses exactly when some folded signed name is not found ignoring ASCII case |
| SigV4.UnicodeNameIsRefused | crates/busbar/src/sigv4.rs:198-198 | A request signed under a name with a non-ASCII capital and sent unchanged is refused |
| SigV4.ReworkedRequestCarries | crates/busbar/src/sigv4.rs:462-477 | For ASCII names: reordering, re-casing, padding and any extra headers, repeated ones included, leave a request that holds what was signed |
| SigV4.AcceptedMeansCanonical | crates/busbar/src/sigv4.rs:435-510 | Acceptance implies a date within 300 s whose day is the scope's, a claimed list that is lower-case under both foldings, sorted, names host and names only headers present, and the signature the signer computes over them |
| SigV4.RefusalsMean | crates/busbar/src/sigv4.rs:435-510 | Which check refuses with which error, in order |
| SigV4.VerifyInboundSigv4 | crates/busbar/src/sigv4.rs:435-510 | The checks in order, with each error, as the specification decides them |
| SigV4.FindHeader | crates/busbar/src/sigv4.rs:467-477 | The search finds the first header of a name, whatever its case |
| SigV4.ConstantTimeEq | crates/api/src/auth.rs:77-92 | The accumulate-then-branch loop decides equality, both ways |
| SigV4Authorization.ParseAuthorizationHeader | crates/busbar/src/sigv4.rs:289-352 | The parse computes the specified sections, credential parts and errors |
| SigV4Authorization.WrittenIsRead | crates/busbar/src/sigv4.rs:302-321 | For any number and order of sections, unknown ones included, the last value of each of the three names is read |
| SigV4Authorization.CredentialIsRead | crates/busbar/src/sigv4.rs:289-352 | A header is read as a claim if and only if its last credential is the claim's five parts, none empty, ending in the terminator, and its list and signature are the claim's and not empty |
| SigV4Authorization.SchemeExactly | crates/busbar/src/sigv4.rs:292-298 | A header is refused as not SigV4 exactly when its trimmed text does not begin with the algorithm and a space |
| SigV4Authorization.TrimStrips | crates/busbar/src/sigv4.rs:292-319 | Trimming takes Unicode white space off both ends and nothing more |
| SigV4Authorization.WhiteMeaning | crates/busbar/src/sigv4.rs:292-319 | White space is the 25 code points Unicode calls so |
| SigV4Authorization.ClaimIsRead | crates/busbar/src/sigv4.rs:289-352 | The three sections a client writes parse back to its claim |
| SigV4Authorization.SignedHeaderIsAccepted | crates/busbar/src/sigv4.rs:435-510 | Signed, written into the Authorization header, parsed and verified: the parse returns the signer's claim and the verifier accepts it |
| SigV4Binding.RequestIsLines | crates/busbar/src/sigv4.rs:209-211 | The canonical request is method, URI, query, header lines, an empty line, signed names and payload hash |
| SigV4Binding.StringIsLines | crates/busbar/src/sigv4.rs:212-216 | The string to sign is algorithm, timestamp, scope and request hash |
| SigV4Binding.KeyIsChain | crates/busbar/src/sigv4.rs:66-74 | The signing key is derived from the prefixed secret by date, region, service and terminator |
| SigV4Binding.KeyBinds | crates/busbar/src/sigv4.rs:66-74 | With ideal primitives a signing key belongs to one secret and one scope |
| SigV4Binding.SignatureBinds | crates/busbar/src/sigv4.rs:202-220 | With ideal primitives and one-line texts, equal signatures mean equal secret, scope, method, URI, query, payload hash, timestamp and signed names and values |
| SigV4Binding.AcceptedRequestsAgree | crates/busbar/src/sigv4.rs:435-510 | Two accepted requests with one claim agree on secret, target, timestamp and the canonical value of every signed header |
| CostLimits.ProjectLimits | crates/busbar/src/cost.rs:271-332 | The mutating compile loop yields one bucket per scope, in order of first use, with the specified caps and the concurrency cap |
| CostLimits.Place | crates/busbar/src/cost.rs:279-326 | Finding or making a bucket and tightening it compiles one more limit |
| CostLimits.TightestMeaning | crates/busbar/src/cost.rs:303-325 | A cap is the least matching amount (a budget clamped to i64::MAX), and `downgrade_to` is that of the first limit attaining it |
| CostLimits.BudgetCapFits | crates/busbar/src/cost.rs:312-324 | A budget cap is the least of the matching amounts and i64::MAX |
| CostLimits.BucketsMirrorLimits | crates/busbar/src/cost.rs:279-302 | There is exactly one bucket per (window, pool) in use and none besides |
| CostLimits.CompilationPreservesMeaning | crates/busbar/src/cost.rs:251-345 | Usage is at or below every compiled cap exactly when it is at or below every configured limit |
| BucketIds.SameGroupIds | crates/busbar/src/cost.rs:286-292 | Within a group, equal ids mean equal window and pool |
| BucketIds.IdText | crates/busbar/src/cost.rs:286-292 | The text of an id with and without a pool, and the window words |
| BucketIds.IdsDistinctWithoutAt | crates/busbar/src/cost.rs:286-292 | With no `@` in group names, ids are pairwise distinct across the tree |
| BucketIds.CollideExactlyWhenShadowed | crates/busbar/src/cost.rs:286-292 | Two groups can share an id exactly when one name spells out the other with a window and `#` |
| BucketIds.CollisionExample | crates/busbar/src/cost.rs:286-292 | Two concrete groups that share a ledger row |
| CostChain.ProjectGroups | crates/busbar/src/cost.rs:251-345 | Every group keeps its name, switch and buckets; its parent is the group its configuration names, or none when it names none that exists; the index maps exactly the table's names |
| CostChain.ChainFor | crates/busbar/src/cost.rs:480-526 | The chain is the key's bucket followed by the buckets along the walk; in a table with no cycle the walk is the distinct path to the root; an unknown group is an error, and only that |
| CostChain.WalkReachesRoot | crates/busbar/src/cost.rs:503-524 | With no cycle, the clamp at the number of groups never cuts the path short |
| CostChain.WalkIsBounded | crates/busbar/src/cost.rs:503-524 | On any table the walk takes at most as many steps as there are groups, and ends at a root exactly when the chain of parents is finite |
| CostEnforcement.ChainEnforcesAncestorLimits | crates/busbar/src/cost.rs:480-526 | Where following the configured parent names never comes back: a request is within every entry of its chain exactly when it is within every configured limit, for its pool, of its group and of every configured ancestor |
| CostEnforcement.WalkIsConfigured | crates/busbar/src/cost.rs:480-526 | The walk is the configured lineage up to a group without parent, and lists exactly the configured ancestors, each once |
| CostEnforcement.GroupBucketsMean | crates/busbar/src/cost.rs:159-172 | One group's chain entries that apply to a pool mean that group's limits on that pool and on all pools |
| CostSpend.SumNanos | crates/busbar/src/cost.rs:426-431 | The saturating loop sums the rows' u128 costs, pinned at 2^128 - 1 |
| CostSpend.DeriveSpendCents | crates/busbar/src/cost.rs:420-445 | When no row's cost reaches 2^128, cents are min(i64::MAX, floor(nanos / 10^7) + fee × requests), through every intermediate saturation |
| CostSpend.TierContributes | crates/busbar/src/cost.rs:83-88 | One more token of a tier adds the rate the card lists for that model and tier, and nothing without card or entry |
| CostSpend.TierIsBilled | crates/busbar/src/cost.rs:420-471 | The same of the derived cents and micros |
| CostSpend.NothingCostsNothing | crates/busbar/src/cost.rs:83-88 | A ledger of zero counts costs nothing |
| CostSpend.DeriveSpendMicros | crates/busbar/src/cost.rs:448-471 | The same in micro-units |
| CostSpend.SumExactIff | crates/busbar/src/cost.rs:83-88 | The summed cost is exact if and only if no row's cost reaches 2^128 |
| CostSpend.SafeRatesFit | crates/busbar/src/cost.rs:83-88 | Rates up to 2^62 nanos meet that condition for every u64 token count |
| CostSpend.LargeRatesCanDeriveFree | crates/busbar/src/cost.rs:83-88 | A ledger that costs 2^128 nanos derives to zero cents and zero micros |
| CostSpend.SpendMonotone | crates/busbar/src/cost.rs:420-471 | More tokens or more billable requests never derive to less, in cents or micros, when no row of the larger ledger reaches 2^128 |
| CostSpend.MonotoneExactlyWhen | crates/busbar/src/cost.rs:420-471 | No smaller ledger derives to more if and only if no row reaches 2^128 or the ledger already derives to i64::MAX in both units |
| CostSpend.SpendCanFall | crates/busbar/src/cost.rs:83-88 | One token more takes a ledger from i64::MAX cents to zero |
| CostSpend.CentsAreMicrosOverTenThousand | crates/busbar/src/cost.rs:420-471 | Cents are micros / 10,000 whenever the micros fit i64 |
| Ledger.UsageLedger.ApplyModelDelta | crates/api/src/store.rs:224-242 | One row of a delta updates its model's row, or appends one |
| Ledger.UsageLedger.ApplyDelta | crates/api/src/store.rs:246-254 | A delta is applied counter by counter and row by row |
| Ledger.UsageLedger.TotalTokens | crates/api/src/store.rs:216-220 | The saturating fold is the exact token sum pinned at u64::MAX |
| Ledger.TokenSumCounts | crates/api/src/store.rs:162-220 | One more token in any tier of any row is one more in the sum |
| Ledger.TokenSumOfNothing | crates/api/src/store.rs:162-220 | A ledger of zero counts sums to zero |
| Ledger.Store.AddUsage | crates/api/src/store.rs:430-434 | The default additive write applies the delta to one row and touches no other |
| Ledger.ApplyEffect | crates/api/src/store.rs:246-254 | A flush moves every request and (model, tier) counter by its net delta, saturating, and splits no model |
| Ledger.SatAddIsNearest | crates/api/src/store.rs:224-254 | A counter moves to the u64 value nearest to the exact sum |
| Ledger.FleetSumIsExact | crates/api/src/store.rs:421-434 | If no node's running total goes negative and the fleet total stays within u64, every interleaving leaves each counter at the exact fleet sum |
| Ledger.ExactIffInRange | crates/api/src/store.rs:224-254 | A counter is exact throughout a run if and only if the fleet's running total stays within u64 |
| Ledger.ExactIffInRangeRowByRow | crates/api/src/store.rs:224-254 | The same for arbitrary deltas, measured row by row |
| Ledger.RowByRowSame | crates/api/src/store.rs:246-254 | Applying flushes whole or row by row leaves the same ledger and total |
| Ledger.RepeatedModelCanMiscount | crates/api/src/store.rs:224-254 | A delta naming a model twice can miscount although its net is zero |
| Ledger.RowsStayUnique | crates/api/src/store.rs:224-242 | No history gives a model two rows |
| CredentialCache.Store.Get | crates/busbar/src/auth_cache.rs:66-83 | A get serves a live entry and removes an expired one |
| CredentialCache.GetRemovesExpired | crates/busbar/src/auth_cache.rs:66-83 | An expired entry is taken out by the get that finds it, and no other entry is |
| CredentialCache.Store.Put | crates/busbar/src/auth_cache.rs:89-129 | A put drops `Reject`, makes room, and inserts under the next insert number, keeping the numbers distinct |
| CredentialCache.TtlMeaning | crates/busbar/src/auth_cache.rs:89-106 | A module's lifetime is honoured up to 3600 s, its silence means 300 s, and a pass lasts 5 s plus a digest-fixed jitter below 3 s |
| CredentialCache.MakeRoom | crates/busbar/src/auth_cache.rs:108-120 | Room is made by sweeping the expired and then, if need be, dropping the oldest-inserted entry |
| CredentialCache.FindOldest | crates/busbar/src/auth_cache.rs:112-116 | The scan finds the one entry with the least insert number, in any map order |
| CredentialCache.Store.FlushModule | crates/busbar/src/auth_cache.rs:133-138 | One module's entries are dropped and counted, and no others |
| CredentialCache.Store.FlushAll | crates/busbar/src/auth_cache.rs:142-147 | Everything is dropped and counted |
| CredentialCache.HitsAreFresh | crates/busbar/src/auth_cache.rs:66-147 | Over every run the cache holds at most 4096 entries with distinct insert numbers, and a hit is the verdict of the latest non-Reject put since the last covering flush, strictly within its clamped lifetime |
| CredentialCache.PutLosesOnlyTheOldest | crates/busbar/src/auth_cache.rs:108-120 | A put loses a live entry only from a cache full of live entries, and then the oldest-inserted |
| CredentialCache.PutIsServed | crates/busbar/src/auth_cache.rs:66-147 | A put verdict is served until it expires, through every later run that neither replaces nor flushes it and caches fewer than 4096 other verdicts |
| CredentialCache.PutIsEvicted | crates/busbar/src/auth_cache.rs:108-120 | That bound is exact: after 4096 other live verdicts it is gone |
| CredentialCache.FlushRevokes | crates/busbar/src/auth_cache.rs:133-147 | After a flush nothing it covers is served |
| Base64.Base64Encode | crates/busbar/src/media.rs:26-46 | The chunk loop computes the encoding of section 4 of RFC 4648 |
| Base64.AlphabetOrder | crates/busbar/src/media.rs:21-21 | The alphabet is capitals, small letters, digits, plus and slash |
| Base64.GroupIsBigEndian | crates/busbar/src/media.rs:26-46 | A group's four values are its three bytes as one big-endian number |
| Base64.EncodedLength | crates/busbar/src/media.rs:26-46 | Four characters for every three bytes begun, padded at the end exactly when the last group is short |
| Base64.Base64Decode | crates/busbar/src/media.rs:51-81 | The loop fails exactly on a byte outside alphabet, `=` and whitespace or on a count of 1 mod 4, and otherwise yields the bytes the characters stand for |
| Base64.DecodeUndoesEncode | crates/busbar/src/media.rs:26-81 | Decoding undoes encoding on every byte string |
| Base64.RoundTrip | crates/busbar/src/media.rs:26-81 | So does decoding any text with the same alphabet characters, padding removed and whitespace anywhere |
| Base64.IgnoredAnywhere | crates/busbar/src/media.rs:59-62 | Padding and whitespace change no result, wherever they are inserted |
| Base64.KindsExactly | crates/busbar/src/media.rs:51-65 | Exactly `=`, space, tab, line feed, form feed and carriage return are skipped, and exactly the alphabet is read |
| Base64.Shifted | crates/busbar/src/media.rs:67-72 | The stale high bits of the 32-bit accumulator never reach an output byte |
| JsonDepth.ExceedsMaxDepth | crates/busbar/src/json.rs:30-58 | The flag-driven loop with its early return computes the scan of the whole text |
| JsonDepth.ScanMeasuresDepth | crates/busbar/src/json.rs:30-58 | For every JSON value printed with any whitespace and escapes, the scan reports exceeded exactly when the value nests deeper than `max` |
| JsonDepth.ScanString | crates/busbar/src/json.rs:35-45 | A string leaves the scan where it was, whatever brackets and quotes it holds (section 7 of RFC 8259) |
| JsonDepth.StrayClosers | crates/busbar/src/json.rs:52-53 | Closing brackets with nothing open buy no depth |
| JsonDepth.ManyOpeners | crates/busbar/src/json.rs:46-52 | Opening brackets alone exceed the limit exactly when there are more than it allows |

## Left out

- TelemetryCounters.NothingCountedTwice: a slot's lifetime total is taken to stay below 2^64; relaxed atomics are taken as sequentially consistent; the recorder is installed, locks are healthy and threads do not tear down.
- TelemetryCounters.FlushToRecorder: works on the state as a value rather than on shared cells, because the cells' sharing is what the action system models.
- TelemetryHistograms.DeliveredExactlyOnce: the histogram chunks are abstracted to one buffer per slot; samples are carried without their float meaning.
- EventStreamEncoder.EncodeExceptionFrame: the JSON body of the exception is a parameter, and CRC32 is an arbitrary function.
- UriCodec.PercentDecode: the lossy conversion to a string is a parameter that keeps well-formed UTF-8.
- SigV4.VerifyInboundSigv4: SHA-256, HMAC and hex are arbitrary functions; Unicode lower-casing is a parameter that agrees with ASCII lower-casing on ASCII, is idempotent, leaves no ASCII capital and keeps `;`; `SigV4Binding` takes hash, HMAC and hex as injective, which real ones only approximate; the signature comparison is equality, which is what `SigV4.ConstantTimeEq` proves of the loop, with nothing said about its timing.
- SigV4Canonical.SortSorts: the in-place sort of the header vector is modelled as a stable sort on values.
- CredentialCache.Store.Put: `now + ttl` is unbounded, so an expiry beyond u64 is not modelled; the credential digest is a parameter.
- Ledger.Store.AddUsage: one call is one step, as for a single writer or an atomic backend; interleaved read-modify-writes of several writers and store errors are not modelled.
- CostSpend.DeriveSpendCents: arithmetic past u128 wraps as in a release build, where a debug build would panic; converting configured float rates to nanos is not modelled.
- CostChain.ProjectGroups: the group table is given in key order, so sorting the names is not modelled.
- SSRF and URL guards, the breaker, weighted round-robin selection, failover, governance admission and protocol translation: they rest on other files or on URL and address parsing.
- The JWKS cache, OIDC claim checks, admin tokens, pool permissions and media predicates: short case analyses.
- Boot wiring, HTTP handlers, background tasks, persistence files and recorder plumbing: input and output.
