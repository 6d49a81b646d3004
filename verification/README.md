# Verified model of the B2 MCP server

This project models, in Dafny, the parts of the B2 MCP server that keep state over long runs or that must
agree exactly with a simpler specification, and proves what they are for. The network, the SDKs, `fetch`,
streams, timers and rate limits are adversaries: they yield any outcome, in any order. Code that suspends is a
state machine whose steps run from one `await` to the next, so a theorem about every sequence of events is a
theorem about every interleaving. Code that changes things step by step is a class or a method with loops,
proved equal to a function of its input or of the state before; the theorems are then about that function.

`dafny verify dfyconfig.toml` checks everything.

| file | what it models |
|---|---|
| `InFlightLimiter.dfy` | the two-level in-flight limiter, and that its counters are head counts |
| `FetchHandler.dfy` | the HTTP request lifecycle: permits, rekeys, deferred cleanup, drain and close |
| `CsvScanner.dfy` | the usage-report CSV scanner against every RFC 4180 writer |
| `IpAddress.dfy` | IPv4 and IPv6 texts, their values, and the CIDR tests |
| `Base64Url.dfy` | the strict base64url decoder |
| `StableJson.dfy`, `StableSort.dfy` | the canonical JSON form, and the stable sort it and others rest on |
| `TopFiles.dfy`, `UnfinishedUploads.dfy`, `Paging.dfy` | the bounded scans over paged listings |
| `UsageReports.dfy` | the usage-report aggregations |
| `TokenCache.dfy`, `CapabilityCache.dfy`, `OrderedMap.dfy` | the two caches over an insertion-ordered map |
| `DependencyCircuit.dfy` | the OAuth retry loop and circuit breaker |
| `LazyS3Client.dfy` | the lazily authorized S3 facade and its teardown |
| `BoundedListing.dfy` | the bounded parallel bucket listing |
| `EvalRun.dfy` | the eval harness and the drivers' conversation state |
| `AwsChunked.dfy` | the aws-chunked decoder of the fake endpoint |
| `DefinitiveStatus.dfy` | the definitive-status marker of the B2 transports |
| `RetryBudget.dfy` | the process-wide retry budget and the transport that charges it |
| `Rfc850Year.dfy` | the resolution of two-digit years |
| `Common.dfy`, `Text.dfy`, `Arithmetic.dfy` | shared vocabulary |

## What turned out not to hold

The code is modelled as it is. Where a promise fails, one lemma gives a failing input and another the condition
under which the code meets it, in both directions.

- The normal form of `stable` is canonical only without locale ties: two different keys that `localeCompare`
  ties keep their input order. `StableJson.CanonicalExactlyWithoutTies` is the equivalence.
- The in-flight count is the number of live requests exactly in runs in which no discovery dispatch rejects
  (it is returned without `await`, so the handler's `catch` never sees it) and no request ends under the empty
  key: `FetchHandler.Conservation` and `NothingLostIff`; `EscapeStrandsThePermit`, `EmptyKeyStrandsThePermit` and
  `BothLossesAreReachable` give the runs. Only a credential provider passed in by the caller can bring in the empty
  key, as the first key, the discovery key and the keys of the built-in providers all have a fixed prefix; with
  other keys `NothingElseLoses` is the whole condition.
- A falsy rejection is swallowed by the bucket listing (`BoundedListing.FalsyErrorIsSwallowed`), so what returns may
  lack buckets. `FinishedListing` decides it per run. `EveryReturnIsCompleteIff` decides on the answers alone when no
  run can return less: falsy failures do no harm when a truthy one is sure to be recorded before them.
- The chunk decoder does not end on every input: a negative size can send it back
  (`AwsChunked.NegativeSizeLoopsForever`). It ends exactly when it never stands twice at the same place
  (`EndsIffNoRevisit`), and always when every size it reaches is large enough to move it forward
  (`LargeEnoughSizesHalt`).
- The definitive-status marker is wrong after a late read of an older attempt's body or a failing second read;
  it is right throughout a run exactly when there is no such read: `DefinitiveStatus.AlwaysRightIff`.
- The retry budget is described as at most 100 retries per 10 seconds. That holds exactly when less than one
  token is there at the start of the window (`RetryBudget.DocumentedBoundIff`); a full bucket grants up to 200
  (`WindowGrantsTwiceTheBudget`).
- An upload whose start time no `Date` can represent stays `oldest` for good when it is listed first:
  `UnfinishedUploads.OldestIsMinimumIff`.
- A capability discovery that fails before it suspends poisons its key until an explicit invalidation, and
  nothing else does: `CapabilityCache.PoisonedIff` and `PoisonedForever`.
- The capability cache evicts the least recently used entry exactly as long as no store overwrites its own key in
  front of others, which only an explicit invalidation makes possible: `CapabilityCache.EntriesByUseIff`,
  `EntriesByUse` and `InvalidationMisplaces`.
- The capability cache exceeds its maximum exactly when it stores while it is full behind an empty oldest key:
  `CapabilityCache.SizeWithinMaximumIff` and `EmptyKeyExceedsMaximum`.

## Model

| member | source | states |
|---|---|---|
| `InFlight.InFlightLimiter.constructor` | src/http-fetch-handler.ts:178-183 | a new limiter has handed out nothing, in total or under any key |
| `InFlight.InFlightLimiter.Take` | src/http-fetch-handler.ts:188-199 | acquire changes the state exactly as the specification: 503 at the total bound, 429 at the key bound, otherwise one permit more in total and under the key |
| `InFlight.InFlightLimiter.Move` | src/http-fetch-handler.ts:200-211 | rekey moves one permit from key to key without touching the total, refuses at the bound of the new key, and does nothing when the keys are equal |
| `InFlight.InFlightLimiter.GiveBack` | src/http-fetch-handler.ts:212-217 | release takes one permit off the key and off the total, and removes a key that has none left |
| `InFlight.HeldAfterDrop` | src/http-fetch-handler.ts:206-208 | dropping a permit of one key leaves every other key's count alone |
| `InFlight.UnderAfterSet` | src/http-fetch-handler.ts:200-211 | how the set of requests holding a key changes when one request changes its key |
| `InFlight.BoundsNeverExceeded` | src/http-fetch-handler.ts:188-217 | no operation can push the total or any key over its bound |
| `InFlight.AcquireKeepsBalance` | src/http-fetch-handler.ts:188-199 | acquire is allowed if and only if both head counts are under their bounds, and then the counters again equal the head counts |
| `InFlight.RekeyKeepsBalance` | src/http-fetch-handler.ts:200-211 | rekey is allowed if and only if the key stays or the new key has room, and the counters follow the holder that moved |
| `InFlight.ReleaseKeepsBalance` | src/http-fetch-handler.ts:212-217 | giving back under the key that is held removes exactly that holder from the counts |
| `InFlight.AcquireAccounts` | src/http-fetch-handler.ts:188-199 | acquire keeps balance and bounds together |
| `InFlight.RekeyAccounts` | src/http-fetch-handler.ts:200-211 | rekey keeps balance and bounds together |
| `InFlight.ReleaseAccounts` | src/http-fetch-handler.ts:212-217 | release keeps balance and bounds together |
| `FetchHandler.Pipeline.constructor` | src/http-fetch-handler.ts:899-912 | the handler starts with both limiters empty, not draining and not closed |
| `FetchHandler.Pipeline.CloseMcpHandler` | src/http-fetch-handler.ts:931-940 | closes the MCP handler unless it is closed already, and cancels the forced timer |
| `FetchHandler.Pipeline.MaybeCloseAfterDrain` | src/http-fetch-handler.ts:942-944 | closes only when draining and nothing is in flight |
| `FetchHandler.Pipeline.Fetch` | src/http-fetch-handler.ts:988-1035 | admission refines the specification: refused while draining or at a bound, else one permit under the request's first key |
| `FetchHandler.Pipeline.DispatchDiscoveryMode` | src/http-fetch-handler.ts:1051-1093 | the move to the discovery key: a refusal leaves the permit under the old key, success makes the new key the one to release |
| `FetchHandler.Pipeline.Admission` | src/http-fetch-handler.ts:1135-1187 | refines the step whose exact admission condition is CredentialAdmittedIff: the move to the credential key, then the verification permit with its give-back when the rate limit refuses |
| `FetchHandler.Pipeline.ResumeWithBody` | src/http-fetch-handler.ts:1037-1133 | from the body read to the next wait, every refusal included |
| `FetchHandler.Pipeline.ResumeWithCapabilities` | src/http-fetch-handler.ts:1189-1216 | from the capability lookup to the next wait; the finally gives a held verification permit back exactly once |
| `FetchHandler.Pipeline.ResumeWithResponse` | src/http-fetch-handler.ts:1217-1229 | a dispatch result, or its exception, becomes a response with a pending cleanup, except the exception of an un-awaited discovery dispatch |
| `FetchHandler.Pipeline.RunCleanup` | src/http-fetch-handler.ts:839-882 | the deferred cleanup runs once; later calls change nothing |
| `FetchHandler.Pipeline.Finalize` | src/http-fetch-handler.ts:946-956 | the permit is released under the key the request holds at that moment, then the drain check runs |
| `FetchHandler.Pipeline.BeginDrain` | src/http-fetch-handler.ts:1232-1239 | drain latches, arms the timer, and closes at once when idle |
| `FetchHandler.Pipeline.OnForcedTimer` | src/http-fetch-handler.ts:1236-1237 | the timer closes the handler whatever is in flight |
| `FetchHandler.Pipeline.CloseNow` | src/http-fetch-handler.ts:1241-1244 | close drains and then closes whatever is in flight |
| `FetchHandler.CapabilitiesTally` | src/http-fetch-handler.ts:1159-1209 | leaving the capability wait in any way keeps both limiters equal to the requests that hold their permits |
| `FetchHandler.AdvanceFollows` | src/http-fetch-handler.ts:984-1230 | how one step of one request may change it: the total moves only when it finishes, it gives back at most once, and it becomes lost exactly at a losing event |
| `FetchHandler.StepKeepsInv` | src/http-fetch-handler.ts:984-1244 | each step of any request or of drain, timer and close keeps the whole invariant |
| `FetchHandler.RunKeepsInv` | src/http-fetch-handler.ts:984-1244 | so does every interleaving of them |
| `FetchHandler.Conservation` | src/http-fetch-handler.ts:984-1243 | in every run the in-flight count is the live requests plus the lost ones, and equals the live requests if and only if no event of the run loses one; each key counts its holders, no bound is exceeded, and every finished request gave back one permit under the key it held |
| `FetchHandler.StepLoses` | src/http-fetch-handler.ts:946-956 | one event loses a request if and only if it is the rejection of a discovery dispatch or the end of a request under the empty key, and no event finds one again |
| `FetchHandler.NothingLostIff` | src/http-fetch-handler.ts:946-956 | nothing is lost in a run if and only if nothing was lost before and no event of the run is one of those |
| `FetchHandler.NothingElseLoses` | src/http-fetch-handler.ts:1051-1093 | while no key is empty, a run loses nothing if and only if no discovery dispatch in it rejects |
| `FetchHandler.CaughtFailureIsFinalized` | src/http-fetch-handler.ts:1217-1229 | any other dispatch that throws loses nothing: it is answered and its cleanup is pending |
| `FetchHandler.EscapeStrandsThePermit` | src/http-fetch-handler.ts:1127-1127 | a rejecting discovery dispatch, returned without await, gives nothing back, and in every later run the request stays lost under the same key |
| `FetchHandler.EmptyKeyStrandsThePermit` | src/http-fetch-handler.ts:951-956 | so does the end of a request that holds its permit under the empty key |
| `FetchHandler.LostForever` | src/http-fetch-handler.ts:946-956 | a lost request stays lost and unchanged in every run |
| `FetchHandler.LostPermitStaysTaken` | src/http-fetch-handler.ts:946-956 | its permit is counted under its key in every later state |
| `FetchHandler.BothLossesAreReachable` | src/http-fetch-handler.ts:1138-1149 | from a fresh handler and a named first key, a rejecting discovery dispatch loses a request, and so does a credential resolved to the empty key |
| `FetchHandler.ArrivalAdmittedIff` | src/http-fetch-handler.ts:988-1035 | in every run a new request is let in if and only if the handler is not draining and the requests that hold a permit, in all and under its key, are below the bounds; a spent rate only gets it answered |
| `FetchHandler.CredentialAdmittedIff` | src/http-fetch-handler.ts:1134-1193 | in every run a resolved credential goes on to the capability lookup if and only if it keeps its key or the holders of the new one are below the bound, its rate is not spent, and a verification, if due, is below both bounds and its own rate; it then holds that key, and otherwise it is answered |
| `FetchHandler.DiscoveryModeEnteredIff` | src/http-fetch-handler.ts:1051-1076 | discovery mode is entered from either side if and only if the discovery key has room and its rate is not spent; a verification permit is given back either way |
| `FetchHandler.DispatchedIff` | src/http-fetch-handler.ts:1107-1223 | outside discovery mode a request reaches the MCP handler if and only if it needs no credential or its capabilities were found, under the key it had; every other outcome leads to the lookup, to discovery mode or to an answer |
| `FetchHandler.PermitHeldWhileBodyStreams` | src/http-fetch-handler.ts:839-882 | whatever else happens, a response with a body keeps its permit under its key until the body has settled |
| `FetchHandler.BodilessEndsWithItsServers` | src/http-fetch-handler.ts:847-850 | a response without a body keeps it until its servers are closed, and no longer |
| `FetchHandler.ShutdownSteps` | src/http-fetch-handler.ts:1232-1244 | draining starts with drain() or close() only, close() closes, and the forced timer closes if and only if the handler is draining |
| `FetchHandler.NothingAdmittedAfterDrain` | src/http-fetch-handler.ts:988-990 | once draining the set of admitted requests never grows |
| `FetchHandler.ClosedOnceAndOnlyWhenIdle` | src/http-fetch-handler.ts:931-956 | the handler is closed at most once; only the timer or close() closes it over live requests; and a drained handler with no permit out is closed |
| `CsvScanner.ScanRows` | src/b2/insights.ts:50-87 | the scanning loop with its index and lookahead computes the character-by-character specification |
| `CsvScanner.ToRecord` | src/b2/insights.ts:89-95 | a record maps each trimmed header cell to the row's cell or the empty string |
| `CsvScanner.ParseCsv` | src/b2/insights.ts:50-96 | the first row is the header, every other row becomes a record, no rows give no records |
| `CsvScanner.ScanCell` | src/b2/insights.ts:57-81 | scanning a written cell, bare or quoted, collects exactly its value |
| `CsvScanner.ScanCells` | src/b2/insights.ts:57-81 | scanning the cells of a line splits them at the separators and nowhere else |
| `CsvScanner.ScanLineEnd` | src/b2/insights.ts:73-78 | LF, CR and CRLF each close one row |
| `CsvScanner.PrintStartsWith` | src/b2/insights.ts:73-78 | when a written table begins with LF: the one place where a CR could swallow the next line's end |
| `CsvScanner.ScanLines` | src/b2/insights.ts:50-87 | scanning a written table from any point between rows appends that table |
| `CsvScanner.RoundTrip` | src/b2/insights.ts:50-87 | for every writer of section 2 of RFC 4180 (any quoting, any mix of LF, CR and CRLF, final line end or not) the scanner returns the table less its one-empty-field rows |
| `CsvScanner.RoundTripIsExact` | src/b2/insights.ts:77-77 | the table comes back whole if and only if it has no row of one empty field |
| `CsvScanner.TrimTakesOffSpace` | src/b2/insights.ts:88-88 | trimming a header cell takes off exactly the white space at both ends |
| `CsvScanner.RecordLooksUpLastColumn` | src/b2/insights.ts:88-95 | a record has exactly the header names as keys, and of several equal names the last column wins |
| `IpAddress.Ipv4ToInt` | src/b2/buckets.ts:282-293 | the loop accepts exactly four octets and returns a value below 2^32 |
| `IpAddress.V4AcceptsExactlyQuads` | src/b2/buckets.ts:282-293 | a text has IPv4 value v if and only if it is four octets (one to three digits, at most 255) joined by dots whose big-endian value is v |
| `IpAddress.DigitsSpell` | src/b2/buckets.ts:288-289 | decimal digits have value n if and only if they are n written out in decimal behind any number of zeros |
| `IpAddress.V4AcceptsExactlyDecimalQuads` | src/b2/buckets.ts:282-293 | a text is accepted with value v if and only if it spells, in at most three digits each, four numbers below 256 whose big-endian value is v |
| `IpAddress.GroupPlaces` | src/b2/buckets.ts:300-332 | a group is its digits in base 16 |
| `IpAddress.GroupsPlaces` | src/b2/buckets.ts:300-332 | eight groups are an address in base 65536, most significant first |
| `IpAddress.Ipv6ToBigInt` | src/b2/buckets.ts:300-324 | zone, embedded quad, split at `::`, fill and fold compute the specification, with a value below 2^128 |
| `IpAddress.FoldGroups` | src/b2/buckets.ts:318-323 | the accumulating loop rejects a bad group and otherwise yields the big-endian value |
| `IpAddress.FullForm` | src/b2/buckets.ts:309-323 | eight groups joined by colons denote their big-endian 128-bit value (section 2.2 of RFC 4291) |
| `IpAddress.CompressedForm` | src/b2/buckets.ts:309-323 | writing any run of zero groups as `::` leaves the value unchanged |
| `IpAddress.GroupsAcceptsExactlyRfcForms` | src/b2/buckets.ts:309-323 | a hexadecimal text has value v if and only if it is the full form or a one-`::` form of eight groups of value v |
| `IpAddress.DottedForm` | src/b2/buckets.ts:302-307 | a trailing dotted quad means the two groups it spells |
| `IpAddress.DottedFullText` | src/b2/buckets.ts:300-324 | the full form with a quad for the last two groups has the same value, however those groups would be written |
| `IpAddress.DottedCompressedText` | src/b2/buckets.ts:300-324 | so has the compressed form with a quad, for any run of zero groups before it |
| `IpAddress.HexTexts` | src/b2/buckets.ts:300-324 | full and compressed texts are read from the raw input to the same value |
| `IpAddress.EitherCase` | src/b2/buckets.ts:301-301 | writing any letters of a text in the other case leaves its value |
| `IpAddress.ZoneAndCaseIgnored` | src/b2/buckets.ts:301-301 | a zone after the percent sign and letter case do not change the value |
| `IpAddress.BeforeZoneMeans` | src/b2/buckets.ts:301-301 | only the lower-case text before a zone matters |
| `IpAddress.V6AcceptsExactlyRfcTexts` | src/b2/buckets.ts:300-324 | a text has IPv6 value v if and only if, in lower case and without a zone, it is one of the forms of section 2.2 of RFC 4291 (full or compressed, with or without a dotted quad) of eight groups of value v |
| `IpAddress.V6Bounded` | src/b2/buckets.ts:300-324 | every accepted text denotes less than 2^128 |
| `IpAddress.Ipv4CidrIsInterval` | src/b2/buckets.ts:295-298 | the mask test holds exactly for the addresses of the block around the base |
| `IpAddress.Ipv6CidrIsInterval` | src/b2/buckets.ts:326-330 | the shift test holds exactly for the addresses of the block around the base |
| `Base64Url.DecodeOfEncode` | src/oauth-resource-server.ts:1422-1430 | decoding the sextets of any bytes gives the bytes back |
| `Base64Url.EncodeOfDecode` | src/oauth-resource-server.ts:1422-1431 | encoding what sextets decode to gives them back if and only if their surplus low bits are zero |
| `Base64Url.FillCompletesGroup` | src/oauth-resource-server.ts:1418-1438 | the padding completes the last group of four, and no more |
| `Base64Url.DecoderSteps` | src/oauth-resource-server.ts:1418-1438 | the decoder reads the sextets, re-encodes and compares, exactly as the code does |
| `Base64Url.AcceptsExactlyEncodings` | src/oauth-resource-server.ts:1418-1438 | a string is accepted as some bytes if and only if it is the unpadded base64url encoding of those non-empty bytes (section 5 of RFC 4648) |
| `Base64Url.AcceptsExactlyCanonicalText` | src/oauth-resource-server.ts:1418-1438 | the accepted strings by shape: alphabet, length, and zero surplus bits (section 3.5 of RFC 4648) |
| `Base64Url.DecodingIsInjective` | src/oauth-resource-server.ts:1431-1434 | no two accepted strings decode alike |
| `Text.LowerCharMergesCases` | src/b2/buckets.ts:301-301 | lower case makes the two cases of an ASCII letter the lower one and keeps all else apart |
| `Text.WhiteSpaceIsListed` | src/b2/insights.ts:88-88 | the white space that trimming and number parsing skip is that of ECMA-262 |
| `StableJson.DecimalIsWritten` | src/tool-contract.ts:490-494 | the index keys in an object's enumeration order are canonical decimals, and each has the value that it writes |
| `StableJson.IndexIsArrayIndex` | src/tool-contract.ts:490-494 | the keys that enumerate first are the numbers up to 2^32 - 2 written out |
| `StableJson.UnitsLeIsLexicographic` | src/tool-contract.ts:484-484 | the order of `required` lists is lexicographic by code unit |
| `StableJson.ObjectFormOrder` | src/tool-contract.ts:490-494 | the form of an object has its properties normalized, array indices first by number and the others in locale order |
| `StableJson.ArrayFormOrder` | src/tool-contract.ts:481-487 | the form of an all-text list under `required` is sorted; any other array keeps its order |
| `StableJson.EqualFormsAreEquivalent` | src/tool-contract.ts:480-495 | equal normal forms imply that the values differ only in key order and in the order of all-string `required` arrays |
| `StableJson.EquivalentFormsAreEqual` | src/tool-contract.ts:480-495 | values that differ only so have equal normal forms, provided no object has two keys that the locale comparison ties |
| `StableJson.StableIsIdempotent` | src/tool-contract.ts:480-495 | normalizing twice is normalizing once, ties or not |
| `StableJson.TiesAreVisible` | src/tool-contract.ts:490-494 | with tied keys anywhere there is an equivalent value with another form |
| `StableJson.CanonicalExactlyWithoutTies` | src/tool-contract.ts:480-495 | the form decides equivalence with a value if and only if no object in it has tied keys |
| `StableSort.SortFacts` | src/tool-contract.ts:483-485 | the sort is ordered and a permutation |
| `StableSort.SortIsStable` | src/b2/insights.ts:1401-1401 | which of two tied elements comes first is the same before and after |
| `StableSort.SortKeepsTies` | src/b2/insights.ts:1401-1401 | the elements that tie with any one of them, repeated ones as often as they occur, all keep their order |
| `StableSort.SortedIsUnique` | src/tool-contract.ts:483-485 | when only equal elements tie there is one sorted arrangement |
| `StableSort.TwoPasses` | src/tool-contract.ts:490-494 | a stable sort by one order after another is one stable sort by the combined order |
| `TopFiles.ScanPage` | src/b2/insights.ts:1387-1405 | folding a page into the running list keeps it the first `limit` of the stable descending sort of everything scanned, and stops at max_scan |
| `TopFiles.LargestFiles` | src/b2/insights.ts:1362-1417 | never more than max_scan objects; the list is the top-N of what was scanned, and of the whole listing unless truncated; and it ends at the first page that fails, misses the deadline, passes the cap or leaves no time for another, for that reason and no other |
| `TopFiles.SkipFile` | src/b2/insights.ts:1399-1399 | a file no larger than the smallest of a full list changes nothing |
| `TopFiles.PushFile` | src/b2/insights.ts:1400-1402 | push, sort and pop of any other file give the top-N with that file |
| `TopFiles.SortAppend` | src/b2/insights.ts:1400-1401 | sorting with a new last element places it behind everything it ties with |
| `TopFiles.TopNIsLargest` | src/b2/insights.ts:1362-1405 | the list is sorted, a sub-multiset of the files, and nothing left out is larger than anything kept |
| `UnfinishedUploads.MatchingUnfinishedUploads` | src/b2/insights.ts:1054-1066 | the filter loop keeps exactly the matches in listing order |
| `UnfinishedUploads.MatchesAreExact` | src/b2/insights.ts:1062-1062 | each upload is kept as often as it is listed when it is not known to have started after the cutoff, and otherwise never |
| `UnfinishedUploads.Collect` | src/b2/insights.ts:1492-1529 | never more than max_uploads; always the first matches of the pages walked; all matches when not truncated; and it ends at the first page that fails, misses the deadline, fills the cap with more to come, or leaves no time, for that reason and no other |
| `UnfinishedUploads.ScanParts` | src/b2/insights.ts:1553-1573 | one upload's part scan adds the bytes of the pages that arrive before the first call that does not deliver, and is complete if and only if all arrive |
| `UnfinishedUploads.SizeUploads` | src/b2/insights.ts:1545-1576 | sizing goes exactly as far as the first upload cut short or followed by a spent budget; bytes, sized count, flag and oldest are those at that point, and only a failing call there is an error |
| `UnfinishedUploads.TotalOfOne` | src/b2/insights.ts:1560-1565 | together with the next row: a total is the sum of its parts |
| `UnfinishedUploads.TotalConcat` | src/b2/insights.ts:1560-1565 | totals add up over the parts of a listing |
| `UnfinishedUploads.TotalOfFirstIsTotal` | src/b2/insights.ts:1545-1576 | the bytes of the first n uploads are those of all parts on all their pages |
| `UnfinishedUploads.SizedAreScanned` | src/b2/insights.ts:1545-1576 | the sized uploads are the first ones, each scanned to its end in time but perhaps the last, and the bytes are theirs and what arrived of one cut short |
| `UnfinishedUploads.WastedIsLowerBound` | src/b2/insights.ts:1545-1576 | the reported bytes cover the sized uploads and never exceed the true total; they are exact when the flag is clear, and the flag is set if and only if some upload stops the sizing |
| `UnfinishedUploads.OldestIsMinimumIff` | src/b2/insights.ts:1550-1551 | `oldest` is the first minimum of the start times (a missing one counts as latest) if and only if the first upload's start time is representable |
| `UsageReports.ComputeEgressLeaders` | src/b2/insights.ts:249-262 | the grouping loop and sort compute the specification |
| `UsageReports.KeyOfRow` | src/b2/insights.ts:255-256 | a row counts for its account, or by bucket for the first of id and name that is not empty, and for nothing else |
| `UsageReports.LeaderIsTotal` | src/b2/insights.ts:254-260 | each leader carries the whole egress of its key and the account and bucket of its first row; other keys have no leader |
| `UsageReports.GroupsConserve` | src/b2/insights.ts:253-260 | groups come in order of first appearance, once each, and hold exactly the egress of the keyed rows |
| `UsageReports.LeadersRankAndConserve` | src/b2/insights.ts:249-262 | leaders are in descending order, all of equal egress in order of first appearance, and add up to the egress of the keyed rows |
| `UsageReports.StoredByAccount` | src/b2/insights.ts:885-892 | the accumulating loop computes the specification |
| `UsageReports.StoredIsTotal` | src/b2/insights.ts:885-892 | an account's amount is the sum over its rows; it is present if and only if one of them has storage data |
| `UsageReports.StoredConserves` | src/b2/insights.ts:885-892 | all accounts together hold exactly the stored bytes of the snapshot |
| `UsageReports.ComputeSnapshotGrowth` | src/b2/insights.ts:919-940 | the report loop over the union of accounts and its sort compute the specification |
| `UsageReports.GrowthIsChange` | src/b2/insights.ts:907-931 | a row says what its account stored in either snapshot, whether it is new, and its growth in per cent of what it had, if it had anything |
| `UsageReports.AccountsFacts` | src/b2/insights.ts:926-926 | the union has every account of either snapshot exactly once |
| `UsageReports.GrowthRanksAndConserves` | src/b2/insights.ts:919-940 | rows are in descending order of growth and add up to exactly the change in stored bytes |
| `TokenCache.Cache.constructor` | src/oauth-resource-server.ts:1061-1061 | the cache starts empty |
| `TokenCache.Cache.CachedAuthInfo` | src/oauth-resource-server.ts:1127-1138 | a lookup drops an expired entry, and moves a live one to the end with a new access time |
| `TokenCache.Cache.RememberAuthInfo` | src/oauth-resource-server.ts:1154-1176 | a store keeps the earlier of token expiry less skew and TTL, skips an expired entry, and evicts the oldest when full |
| `TokenCache.PassesExactlyInWindow` | src/oauth-resource-server.ts:681-710 | claims pass with expiry e if and only if e is their non-zero exp, the time is before e plus the skew and not before nbf and (for a JWT) iat less the skew, and no date of a JWT is malformed |
| `TokenCache.StepKeepsInv` | src/oauth-resource-server.ts:1127-1176 | each lookup and each store keeps soundness, order of use and size |
| `TokenCache.RunKeepsInv` | src/oauth-resource-server.ts:1127-1176 | so does every run under a clock that never goes back |
| `TokenCache.StepHoldsLast` | src/oauth-resource-server.ts:1154-1176 | what a key has in the cache is what its last storable verification established, and each event keeps that |
| `TokenCache.HitsExactlyWhileLive` | src/oauth-resource-server.ts:1127-1150 | a lookup hits if and only if the cache has the key and neither the token less the skew nor the TTL of the entry has run out |
| `TokenCache.StoredIff` | src/oauth-resource-server.ts:1152-1176 | a verification is stored if and only if its claims pass, the cache has any room, and the entry would be live |
| `TokenCache.StepHolds` | src/oauth-resource-server.ts:1127-1176 | what an event leaves under each key: an entry goes only by expiring before a lookup of its key, or by being the least recently used when another key needs the room |
| `TokenCache.HitAgreesWithVerification` | src/oauth-resource-server.ts:681-709 | a hit for a key returns what the last storable verification of that key in the run established; its claims would still pass the time-window checks then, before token expiry less skew and within the TTL |
| `TokenCache.SizeWithinMaximum` | src/oauth-resource-server.ts:1167-1170 | the cache never exceeds its configured maximum |
| `TokenCache.EvictsLeastRecentlyUsed` | src/oauth-resource-server.ts:1166-1170 | an evicted entry was used less recently than every entry that stays |
| `TokenCache.StepKeepsStampsIff` | src/oauth-resource-server.ts:1154-1176 | an event keeps the stored lastAccessMs in the order of use if and only if it does not store a verification that started before the stamp of an entry that stays |
| `TokenCache.StampsFollowUseIff` | src/oauth-resource-server.ts:1127-1176 | the stamps are in the order of use throughout a run if and only if no stored verification was so overtaken |
| `TokenCache.EvictionIgnoresStamps` | src/oauth-resource-server.ts:1166-1175 | where they differ, eviction follows the order of use and drops the entry with the later stamp |
| `DependencyCircuit.RunAttempts` | src/oauth-resource-server.ts:1014-1042 | one to maxRetries + 1 attempts, going on only after a retryable failure, and ending as the last attempt says |
| `DependencyCircuit.GoesOnExactly` | src/oauth-resource-server.ts:985-991 | another attempt follows only a timeout, a network error or an HTTP status of the dependency, and no abort |
| `DependencyCircuit.RecordedExactly` | src/oauth-resource-server.ts:1024-1042 | a run is recorded as a failure if and only if the dependency failed it and no attempt is to come: not after an abort, nor for an error that is not the dependency's |
| `DependencyCircuit.AbortedRunsDoNotCount` | src/oauth-resource-server.ts:1024-1042 | a run that the caller aborted, or that failed on its own account, leaves the circuit as it is |
| `DependencyCircuit.Circuits.AssertClosed` | src/oauth-resource-server.ts:947-957 | a run is refused with the retry hint exactly while its circuit is open |
| `DependencyCircuit.Circuits.NoteSuccess` | src/oauth-resource-server.ts:959-961 | a success forgets the circuit of its key and no other |
| `DependencyCircuit.Circuits.NoteFailure` | src/oauth-resource-server.ts:963-983 | a failure counts one more, opens at the threshold, and surfaces the open circuit |
| `DependencyCircuit.Circuits.FinishRun` | src/oauth-resource-server.ts:1022-1042 | an ended run changes its own circuit and no other |
| `DependencyCircuit.CircuitIsFunctionOfHistory` | src/oauth-resource-server.ts:959-983 | the stored count is the recorded failures since the last success, and from the threshold on the circuit is open until the last failure time plus the interval |
| `DependencyCircuit.RefusedExactlyWhileOpen` | src/oauth-resource-server.ts:941-957 | a run is refused if and only if the threshold is reached and the last failure is less than the interval ago; the hint is the least whole number of seconds that suffices |
| `DependencyCircuit.OpeningIsSurfaced` | src/oauth-resource-server.ts:963-983 | the run whose failure opens the circuit or keeps it open gets the open-circuit error with the hint of a refused run, and any other its own error |
| `DependencyCircuit.OneFailureReopens` | src/oauth-resource-server.ts:967-972 | after an expired opening one more failure reopens the circuit for the whole interval |
| `LazyS3Client.Facade.constructor` | src/s3/client.ts:341-347 | nothing is built, in flight or closed |
| `LazyS3Client.Facade.BuildPeer` | src/s3/client.ts:348-354 | each build is a new peer |
| `LazyS3Client.Facade.Begin` | src/s3/client.ts:369-376 | an operation fails when closed, uses the cached peer, or waits on the one shared authorization |
| `LazyS3Client.Facade.BuildAuthorizedClient` | src/s3/client.ts:356-367 | a settled authorization caches its peer, or destroys it when the facade was closed meanwhile |
| `LazyS3Client.Facade.ClearInflight` | src/s3/client.ts:373-375 | the settled promise is dropped, its waiters wake, and a teardown hook destroys its peer |
| `LazyS3Client.Facade.Continue` | src/s3/client.ts:378-397 | a waiter gets the cached peer, the error, or a fallback peer of its own |
| `LazyS3Client.Facade.ReleaseClient` | src/s3/client.ts:400-412 | the end of an operation destroys its leased peer and leaves a cached one |
| `LazyS3Client.Facade.DestroyAll` | src/s3/client.ts:415-431 | destroy closes for good, destroys the cached peer, and hooks the authorization in flight |
| `LazyS3Client.StepKeepsInv` | src/s3/client.ts:345-431 | every step keeps each built peer in exactly one place |
| `LazyS3Client.NoPeerLeaks` | src/s3/client.ts:345-431 | in every run each peer ever built is cached, leased to one running fallback operation, or destroyed, never two of these; at most one authorized peer is ever built |
| `LazyS3Client.DestroyedAfterTeardown` | src/s3/client.ts:415-431 | after destroy(), once everything in flight has settled, every peer is destroyed |
| `LazyS3Client.NothingBuiltAfterTeardown` | src/s3/client.ts:361-370 | after destroy() nothing is built but by an authorization already under way |
| `LazyS3Client.WaiterGetsOutcome` | src/s3/client.ts:356-397 | whatever happens in between, a waiting operation gets the shared peer of the authorization it waits for; after an outage a leased fallback if the facade is open and one builds; and an error after an untrusted endpoint |
| `LazyS3Client.NoFallbackWithoutOutage` | src/s3/client.ts:378-397 | as long as no authorization fails by an outage no fallback is ever used; an untrusted endpoint is never masked by one |
| `LazyS3Client.NextCallAuthorizesAnew` | src/s3/client.ts:372-376 | once an authorization is over, the next call that finds no peer starts a new one |
| `LazyS3Client.PeerLivesThroughOperation` | src/s3/client.ts:400-412 | an operation keeps its peer until it ends; a leased one is destroyed then and not before, the shared one only by destroy() |
| `LazyS3Client.FallbackIsUsed` | src/s3/client.ts:378-397 | a run after an outage in which a fallback serves an operation |
| `LazyS3Client.CallOutcome` | src/s3/client.ts:369-377 | a call is refused once closed, is given the cached peer if there is one, and otherwise waits for the one shared authorization |
| `BoundedListing.Listing.constructor` | src/b2/client.ts:1141-1144 | as many workers as requests, at most the cap |
| `BoundedListing.Listing.LoopHead` | src/b2/client.ts:1146-1149 | a worker stops on a truthy error or an abort, else takes the next index, else stops at the end |
| `BoundedListing.Listing.AfterRequest` | src/b2/client.ts:1150-1159 | a reply is stored under its own index; the first non-nullish error is kept |
| `BoundedListing.Listing.Collect` | src/b2/client.ts:1162-1165 | throw the error, report the abort, or flatten in index order |
| `BoundedListing.TurnKeepsInv` | src/b2/client.ts:1146-1149 | taking an index keeps each index with one worker |
| `BoundedListing.AnswerKeepsInv` | src/b2/client.ts:1150-1159 | an answer, in any order, keeps the table and the first error a function of the answers so far |
| `BoundedListing.IssuedOnceAndBounded` | src/b2/client.ts:1142-1162 | in every interleaving each index is issued at most once and at most the cap are in flight |
| `BoundedListing.NothingIssuedAfterError` | src/b2/client.ts:1147-1149 | after a recorded truthy error no request is issued and the error stays |
| `BoundedListing.AbortedIff` | src/b2/client.ts:1147-1147 | a run is aborted if and only if an abort occurred in it |
| `BoundedListing.NothingIssuedAfterAbort` | src/b2/client.ts:1147-1149 | after an abort no request is issued |
| `BoundedListing.FinishedListing` | src/b2/client.ts:1162-1165 | a finished listing throws the first recorded truthy error, or reports the abort, or returns the replies in request order |
| `BoundedListing.ReturnsOnlyCompleteListings` | src/b2/client.ts:1162-1165 | when errors are truthy a listing that returns is the sequential one, and any failed request makes it throw |
| `BoundedListing.EveryReturnIsCompleteIff` | src/b2/client.ts:1146-1165 | in every interleaving what returns is complete if and only if the answers hide no failure: there is none, or there is a truthy one and every falsy one (neither null nor undefined) has at least eight truthy ones among the requests before it |
| `BoundedListing.ReachFalsy` | src/b2/client.ts:1142-1162 | with fewer than eight, the workers can wait on those while the falsy failure comes back and is kept as the first error |
| `BoundedListing.FalsyErrorIsSwallowed` | src/b2/client.ts:1158-1163 | a falsy rejection is swallowed: the listing returns without that request's buckets |
| `EvalRun.ConversationState.constructor` | evals/provider-utils.ts:51-54 | no pending calls and nothing consumed |
| `EvalRun.ConversationState.Reset` | evals/provider-utils.ts:55-58 | reset forgets everything of an earlier run |
| `EvalRun.ConversationState.SetPending` | evals/provider-utils.ts:60-62 | the calls of a step replace the pending ones |
| `EvalRun.ConversationState.ConsumeNewToolResults` | evals/provider-utils.ts:64-87 | new results are paired in order with the pending calls, or the call throws on a count mismatch and changes nothing |
| `EvalRun.MismatchExactly` | evals/provider-utils.ts:64-87 | consuming fails if and only if there are new results and not as many as pending calls; otherwise new result i goes with pending call i |
| `EvalRun.ConsumeAnswers` | evals/provider-utils.ts:71-86 | results that answer the awaited calls never mismatch, and each meets its own call |
| `EvalRun.HeadOfStep` | evals/provider-utils.ts:64-87 | at the head of every step everything unconsumed answers the calls of the step before |
| `EvalRun.TailOfStep` | evals/harness.ts:709-735 | consuming keeps all earlier steps paired and leaves no result unconsumed |
| `EvalRun.NextHead` | evals/harness.ts:737-758 | executing the calls in order restores the condition at the next head |
| `EvalRun.Complete` | evals/openai-driver.ts:223-255 | a driver's complete resets on step 0, consumes, asks the provider, and remembers the calls returned |
| `EvalRun.ExecuteCalls` | evals/harness.ts:737-758 | calls run in order, an unexposed tool or a failing call ends the run, and each result is recorded with its own call and the text its tool returned |
| `EvalRun.RunEval` | evals/harness.ts:660-765 | in every run no mismatch is thrown, step k consumes exactly the results of step k - 1 paired call by call, result j carries what tool call j returned, the conversation is the provider's calls each followed by their results, no result is consumed twice, the three budgets hold, and the outcome is the one the next answer, the budgets or the failing call dictate |
| `EvalRun.RunningKeepsRecord` | evals/harness.ts:743-758 | running a step's calls, all or some, keeps every recorded result that of its own call, in conversation order |
| `AwsChunked.DecodeAwsChunked` | test-support/fake-b2-endpoint.ts:54-66 | on every input on which the loop ends it returns what its rounds take |
| `AwsChunked.EnoughRounds` | test-support/fake-b2-endpoint.ts:57-64 | the output does not depend on how many rounds are allowed once the loop ends |
| `AwsChunked.HaltsWithinLength` | test-support/fake-b2-endpoint.ts:57-64 | a loop that ends at all ends within as many rounds as there are bytes |
| `AwsChunked.EndsIffWithinLength` | test-support/fake-b2-endpoint.ts:57-64 | so whether it ends is decided by that many rounds, in both directions |
| `AwsChunked.EndsIffNoRevisit` | test-support/fake-b2-endpoint.ts:57-64 | the loop ends if and only if no walk of its rounds from the start stands twice at the same place of the buffer |
| `AwsChunked.EndlessGoesBack` | test-support/fake-b2-endpoint.ts:57-64 | an endless loop comes to a round whose size is at most minus its line length and four, and so does not move forward |
| `AwsChunked.LargeEnoughSizesHalt` | test-support/fake-b2-endpoint.ts:57-64 | a buffer is decoded whenever every size the loop reaches is above that |
| `AwsChunked.StepDirection` | test-support/fake-b2-endpoint.ts:60-63 | a round moves forward, or stays, exactly as its size compares with minus the line length plus four |
| `AwsChunked.NoMinusHalts` | test-support/fake-b2-endpoint.ts:57-64 | a buffer without a minus sign is always decoded |
| `AwsChunked.NegativeSizeLoopsForever` | test-support/fake-b2-endpoint.ts:60-63 | a first line with a minus sign whose size cancels its own length never ends, whatever follows |
| `AwsChunked.ShortestEndlessBuffer` | test-support/fake-b2-endpoint.ts:60-63 | the four bytes `-6` CR LF are one |
| `AwsChunked.HexValueIsWritten` | test-support/fake-b2-endpoint.ts:60-60 | hex digits of either case have the value they write in base 16, behind any zeros |
| `AwsChunked.OverflowsAboveDoubles` | test-support/fake-b2-endpoint.ts:60-60 | a size is an infinity if and only if it is 2^1024 - 2^970 or more |
| `AwsChunked.ParsesComposedText` | test-support/fake-b2-endpoint.ts:60-60 | white space in UTF-8, a sign, `0x` and digits read as the number the digits write with that sign, as NaN without a digit, whatever stands behind |
| `AwsChunked.EveryTextIsComposed` | test-support/fake-b2-endpoint.ts:60-60 | every text is composed so, and this is all that it reads |
| `AwsChunked.NegativeOffsetCountsFromEnd` | test-support/fake-b2-endpoint.ts:58-63 | a negative offset counts from the end of the buffer, and beyond its start it is the start |
| `AwsChunked.ParsePlainHex` | test-support/fake-b2-endpoint.ts:60-60 | hex digits of either case with leading zeros read as their value, and after a minus sign as its negation |
| `AwsChunked.LineStep` | test-support/fake-b2-endpoint.ts:58-63 | a written size line is read exactly, extension and all |
| `AwsChunked.RoundTrip` | test-support/fake-b2-endpoint.ts:54-66 | for any non-empty chunks with any legal size lines and any data bytes, ended by a zero-size line and any trailer, decoding yields the concatenation of the data |
| `AwsChunked.TruncationGivesPrefix` | test-support/fake-b2-endpoint.ts:54-66 | however a stream is cut off, what comes out is a prefix of the data |
| `DefinitiveStatus.BodyReadContext.constructor` | src/auth.ts:172-172 | a context starts without a marker |
| `DefinitiveStatus.BodyReadContext.StartAttempt` | src/auth.ts:491-495 | each attempt clears the marker |
| `DefinitiveStatus.BodyReadContext.Return` | src/auth.ts:332-347 | a non-2xx response sets the marker to its status before it is handed on; a 2xx response clears it |
| `DefinitiveStatus.BodyReadContext.ReadBody` | src/auth.ts:348-368 | reading an error body clears the marker on success and sets it on failure |
| `DefinitiveStatus.BodyReadContext.Catch` | src/auth.ts:185-193 | a failure takes the marker and reports the observed status, else an unknown status for an interrupted no-replay write, else the abort or the error |
| `DefinitiveStatus.LatestStatusIsUnique` | src/auth.ts:491-506 | one attempt returns one status, and the latest attempt's is the one recorded last |
| `DefinitiveStatus.StepAgreesIff` | src/auth.ts:332-368 | an event keeps the marker right if and only if it is not a stale read |
| `DefinitiveStatus.MarkerIsDefinitive` | src/auth.ts:332-368 | in every run without stale reads the marker is set exactly when the latest attempt returned a non-2xx response whose body has not been read, and holds that status |
| `DefinitiveStatus.AlwaysRightIff` | src/auth.ts:332-368 | the marker is right after every event of a run if and only if none of its reads is stale |
| `DefinitiveStatus.InTurnIsClean` | src/auth.ts:349-368 | reading only the latest response, and not again after a success, is never stale |
| `DefinitiveStatus.FailureSurfacesDefinitiveStatus` | src/auth.ts:185-193 | a failure in that window surfaces the observed status and never an unknown one; the status is reported unknown if and only if the window is closed and a no-replay write was interrupted |
| `DefinitiveStatus.ResponseDecides` | src/auth.ts:332-346 | whatever stale reads did, a response decides the marker anew and a throwing attempt leaves it |
| `DefinitiveStatus.AbortAfterResponse` | src/auth.ts:341-347 | a cancellation right after a non-2xx response surfaces that status |
| `DefinitiveStatus.LateReadSpoilsMarker` | src/auth.ts:349-367 | a late read of an older attempt's body clears or sets the marker wrongly |
| `DefinitiveStatus.SecondReadSpoilsMarker` | src/auth.ts:349-367 | so does a failing second read of a body that was read |
| `RetryBudget.Budget.constructor` | src/utils/retry.ts:29-34 | the budget starts full |
| `RetryBudget.Budget.ConsumeRetryBudgetToken` | src/utils/retry.ts:42-54 | refill by the elapsed time up to the whole budget, then one token if there is one |
| `RetryBudget.TokensAreConserved` | src/utils/retry.ts:42-54 | granted plus left never exceeds what was there plus what came back, under any clock |
| `RetryBudget.GrantsWithinSpan` | src/utils/retry.ts:42-54 | wherever a stretch of calls lies in a run, and under any clock, a span of time grants at most the whole budget plus its refill |
| `RetryBudget.CapacityIsMaximum` | src/utils/retry.ts:42-54 | the most that a span of up to one window can grant is exactly the whole tokens of what is there at its start plus what it brings back |
| `RetryBudget.DocumentedBoundIff` | src/utils/retry.ts:10-12 | the documented bound of 100 retries within a window holds for every schedule of calls if and only if less than one token is there at the start of the window |
| `RetryBudget.WindowGrantsTwiceTheBudget` | src/utils/retry.ts:10-12 | from a full bucket a bound on the grants within a window holds for every schedule if and only if it is at least 200 |
| `RetryBudget.SharedRetryBudgetTransport.constructor` | src/auth.ts:482-489 | no attempt is counted |
| `RetryBudget.SharedRetryBudgetTransport.Begin` | src/auth.ts:491-503 | a send counts its attempt, and is passed on unless it is a re-send the budget refuses |
| `RetryBudget.SharedRetryBudgetTransport.Respond` | src/auth.ts:504-504 | a response whose status is not retryable ends the series of its key |
| `RetryBudget.SharedRetryBudgetTransport.Fail` | src/auth.ts:506-509 | an abort ends the series of its key, another error does not |
| `RetryBudget.TransportIsFunctionOfHistory` | src/auth.ts:491-530 | the count of a key is its sends since its last final response or abort, the bucket is charged exactly for the others' re-sends, and what is passed on is first attempts plus grants |
| `RetryBudget.FirstAttemptsAreFree` | src/auth.ts:498-501 | a first attempt is never refused nor charged; a re-send is passed on if and only if the budget grants it a token |
| `RetryBudget.ResendsBounded` | src/auth.ts:491-503 | over any run the re-sent requests are at most the whole budget plus what its time span brings back |
| `Rfc850Year.CenturyDays` | src/auth.ts:447-448 | a hundred Gregorian years have 36524 or 36525 days |
| `Rfc850Year.YearDays` | src/auth.ts:447-448 | a year has 365 or 366 days |
| `Rfc850Year.MonthLengths` | src/auth.ts:437-446 | months have their Gregorian lengths and follow one another from the start of the year |
| `Rfc850Year.RunsOn` | src/auth.ts:437-446 | a day past the end of its month is as many days into the next one |
| `Rfc850Year.TimeFollowsCalendar` | src/auth.ts:437-450 | one date and time is before another in milliseconds if and only if it is so by year, month, day and time |
| `Rfc850Year.WithinCutoffIff` | src/auth.ts:437-450 | a date is within the cutoff if and only if it is no later than the same day and time fifty years on, with 1 March for a missing 29 February |
| `Rfc850Year.ResolveYear` | src/auth.ts:432-450 | both loops end, the suffix is kept, and the stamp is at most the 50-year cutoff while a century later it exceeds it; an unparsable stamp leaves the year |
| `Rfc850Year.ResolvedYearIsLatest` | src/auth.ts:445-448 | that year is unique: years with the suffix are within the cutoff exactly up to it (section 5.6.7 of RFC 9110) |
| `Rfc850Year.ResolvedYearIsNear` | src/auth.ts:444-448 | the year is at most 50 years from the current one, so each loop runs at most once |
| `CapabilityCache.Cache.constructor` | src/server.ts:514-515 | both maps start empty |
| `CapabilityCache.Cache.SweepCapabilityCache` | src/server.ts:581-585 | the sweep loop drops exactly the expired entries |
| `CapabilityCache.Cache.EnforceCacheMax` | src/server.ts:619-630 | the eviction loop drops from the oldest end until within the maximum or at an empty key |
| `CapabilityCache.Cache.RememberCapabilities` | src/server.ts:650-659 | an empty list or a zero TTL stores nothing; otherwise sweep, set and evict |
| `CapabilityCache.Cache.Fetch` | src/server.ts:824-849 | a fetch hits and refreshes the order, joins the discovery in flight, or starts one |
| `CapabilityCache.Cache.Finish` | src/server.ts:836-848 | a finished discovery stores its result under the time it started and ends its flight |
| `CapabilityCache.StoreFacts` | src/server.ts:650-659 | a store of an absent key puts it last and keeps it, and brings in nothing else |
| `CapabilityCache.FinishKeepsInv` | src/server.ts:836-848 | finishing keeps every running discovery the flight of its key and every slot the result of the last one |
| `CapabilityCache.FetchKeepsInv` | src/server.ts:824-849 | so does a fetch |
| `CapabilityCache.RunKeepsInv` | src/server.ts:824-851 | so does every run without explicit invalidation |
| `CapabilityCache.SingleFlight` | src/server.ts:833-849 | without explicit invalidation at most one discovery per key is running |
| `CapabilityCache.JoinsLastDiscovery` | src/server.ts:833-834 | a fetch that joins joins the last started discovery of its key, which is running if and only if no fetch of that key failed before it suspended |
| `CapabilityCache.HitIsLastResult` | src/server.ts:824-831 | each hit is the non-empty result of the last discovery of its key, started less than a TTL ago |
| `CapabilityCache.EvictReachesMaximumIff` | src/server.ts:619-626 | eviction reaches the maximum if and only if none of the oldest entries it has to drop has the empty key |
| `CapabilityCache.StepWithinMaximumIff` | src/server.ts:650-659 | a step leaves the size within the maximum if and only if it does not store into a cache that is full behind an empty oldest key |
| `CapabilityCache.SizeWithinMaximumIff` | src/server.ts:619-659 | the size is within the maximum throughout a run if and only if no store of the run meets that case |
| `CapabilityCache.StoredWithinBounds` | src/server.ts:619-659 | no stored list is empty; a run that never meets that case ends within the maximum; and a run without a discovery for the empty key never meets it |
| `CapabilityCache.EmptyKeyExceedsMaximum` | src/server.ts:622-623 | a run that exceeds the maximum: the empty key and then any other with room for one |
| `CapabilityCache.NewEntryStays` | src/server.ts:650-659 | the entry a store adds is never the one it evicts |
| `CapabilityCache.InvalidationForgets` | src/server.ts:537-545 | an explicit invalidation forgets its key in both maps, or everything when it names none, and nothing else |
| `CapabilityCache.SweepDropsExpired` | src/server.ts:821-822 | a sweep drops exactly the expired entries |
| `CapabilityCache.FetchKeepsUse` | src/server.ts:821-832 | a fetch that finds its key cached moves it to the end of the order of use, and any other fetch leaves the order |
| `CapabilityCache.StepKeepsUseIff` | src/server.ts:650-659 | an event keeps the entries in the order of last use if and only if it does not overwrite its own key in front of other entries |
| `CapabilityCache.EntriesByUseIff` | src/server.ts:650-832 | the entries stand in the order of last use throughout a run if and only if no store does that |
| `CapabilityCache.EntriesByUse` | src/server.ts:650-850 | without explicit invalidation none does, so the order always is that of last use |
| `CapabilityCache.EvictsLeastRecentlyUsed` | src/server.ts:650-659 | what a store evicts was used less recently than everything left, and it evicts only when the maximum is left |
| `CapabilityCache.InvalidationMisplaces` | src/server.ts:536-545 | a run with an invalidation after which the entry used last stands first |
| `CapabilityCache.StepPoisonsIff` | src/server.ts:833-849 | a step makes the flight of a key a failed discovery if and only if it is a fetch of that key that finds nothing and fails before it suspends |
| `CapabilityCache.PoisonedIff` | src/server.ts:833-849 | without explicit invalidation the flight of a key is a failed discovery if and only if some fetch of that key did so, whatever happened to other keys |
| `CapabilityCache.FailureBeforeSuspensionPoisons` | src/server.ts:836-849 | such a fetch leaves its rejected promise as the flight of its key, with nothing running or cached to replace it |
| `CapabilityCache.PoisonedForever` | src/server.ts:833-849 | until an explicit invalidation every later fetch of that key joins the failed discovery |
| `CapabilityCache.InvalidationAllowsSecondFlight` | src/server.ts:537-545 | after an invalidation two discoveries of one key can run |

## Left out

- Node and Web plumbing, stream bridging, deployment entry points, logging, CLI and environment parsing: I/O and
  wrappers. Limits, intervals and maxima are parameters.
- Signatures, HMAC labels, fingerprints and `jose`: cache keys and labels are opaque strings.
- The MCP, B2 and AWS SDKs, including the SDK's `RetryTransport`: any outcome in any order.
- Rate limiter, credential provider, header checks and protocol preflight: arbitrary outcomes of a step.
- JWKS refresh and its cooldown: recorded only after its await, so no strict rate bound is claimed.
- `withRetry` and the retry loop of the eval providers: a counted loop each, read off one body.
- Zod schemas, tool descriptions, CORS and bucket-info validation, `mapRow` and date normalization: declarative or
  single expressions.
- FetchHandler.Pipeline.ResumeWithBody: a GET or DELETE reads no body and does not suspend there; the model lets it suspend.
- FetchHandler.Pipeline.Finalize: `closePreparedServers` may fail; its `finally` runs either way, so only the completion is a step.
- CsvScanner.ToRecord: a record is a map, so a header cell named `__proto__` is an ordinary key; `trim` strips the white space of ECMAScript.
- IpAddress.ZoneAndCaseIgnored: lower-casing is modelled for ASCII letters only; other characters are never accepted anyway.
- IpAddress.CompressedForm: the code accepts `::` for a run of no group at all, as the model does; section 2.2 of RFC 4291 asks for one or more.
- StableJson.CanonicalExactlyWithoutTies: `localeCompare` is any total preorder; numbers and other leaves are opaque.
- TopFiles.LargestFiles: the part of a listing behind an empty next-file name counts as absent, as the loop treats it.
- UsageReports.GrowthRanksAndConserves: bytes are real numbers, so the order and rounding of floating-point additions are not modelled.
- TokenCache.SizeWithinMaximum: one configuration; caches shared by configurations with different maxima are not modelled.
- TokenCache.HitAgreesWithVerification: skews are at least zero, which the configuration loader enforces; times are real numbers.
- DependencyCircuit.CircuitIsFunctionOfHistory: runs that share a key share a policy.
- UnfinishedUploads.Collect: the walk over a listing that never ends is not modelled; in the source only its time budget ends it.
- EvalRun.RunEval: a `complete` that outlives its timeout and reaches the driver's state during a later run is not modelled.
- EvalRun.Complete: the OpenAI driver is cited; the Anthropic driver uses the state in the same way.
- AwsChunked.DecodeAwsChunked: sizes beyond 2^53 are not rounded to doubles; a Buffer is shorter than that.
- DefinitiveStatus.BodyReadContext.ReadBody: only `json()` of an error response is wrapped; reading it with `text()` or `arrayBuffer()` leaves the marker alone and is not an event.
- DefinitiveStatus.BodyReadContext.StartAttempt: a request without a signal bypasses the wrapper; the outer transport always sets one.
- RetryBudget.TokensAreConserved: tokens are real numbers, without floating-point rounding of the refill.
- Rfc850Year.ResolveYear: the clock is given as a UTC calendar date, and the two-digit reading that `Date.parse` gives years below 100 is not modelled; no clock reaches them.
- CapabilityCache.SingleFlight: runs without explicit invalidation; `InvalidationAllowsSecondFlight` is the other case.
- CapabilityCache.Cache.Fetch: `B2_REGISTER_ALL_TOOLS` and the preliminary `requiresCapabilityDiscovery` check, which only drops an expired entry early.
