# AppForge verification

A Dafny model of the parts of AppForge whose correctness depends on whole runs, on interleavings or
on the fit between a writer and a reader, with proofs of what those parts promise.

| Files | Subject |
|---|---|
| `SnapshotIndex.dfy` | the authoritative price snapshot index: "latest" script, hot-window pipeline, paged search |
| `AirgapManifest.dfy`, `AirgapPackage.dfy`, `AirgapProtocol.dfy` | AIR_GAPPED packages: validators, writer, strict reader, and both together |
| `AirgapBundle.dfy`, `AirgapResult.dfy` | the offline build: bundle matching and the signed result |
| `AirgapReplay.dfy`, `AirgapRepublish.dfy`, `AirgapCommand.dfy` | one-time consumption: all interleavings, when a package can be published again, and the command itself |
| `SyslogMessage.dfy`, `SyslogFrame.dfy`, `ExporterQueue.dfy` | the audit exporter: RFC 5424 text, octet-counted frames, queue and retry |
| `MarketDataCache.dfy` | versioned kline and realtime writes with key expiry |
| `AlertDelivery.dfy` | the alert delivery tracker |
| `RequestReplay.dfy` | timestamp window and one-time nonces of encrypted requests |
| `TaskInputs.dfy`, `CustomerObjects.dfy`, `TaskRun.dfy` | the local agent's task execution |
| `Allowlist.dfy`, `BoundedDecimal.dfy` | two text algorithms against their specifications |
| `Text.dfy`, `Utf8.dfy`, `Paths.dfy`, `Sorting.dfy` | the library functions the above rest on |

Conventions. A `string` is the sequence of runes of a Go string; where bytes matter, `Utf8.Encode`
and `Utf8.Size` give them. Redis, the file system, ZIP containers, clocks and remote answers are
plain data: maps, entry lists, times, and functions that answer for the environment. SHA-256, ECDSA,
JSON and `url.Parse` are abstract functions; each lemma that needs a law of theirs states it in its
`requires` (no collision between the two texts at hand, a decoder that undoes the encoder on valid text). Objects
whose methods change state are classes whose methods are proved against a function of the old
state, and the whole-run results are lemmas about those functions.

## Where the code does less than one would hope

Each of these is stated as an exact condition, together with a family of inputs that fails it.

* A full page of 100 search results can hide a better snapshot. The answer is certain exactly when
  the page is not full or the answer is strictly newer than the page's last entry
  (`SnapshotIndex.PageGuardIsExact`). The order of publication is irrelevant exactly when one
  snapshot alone has the greatest rank (`SnapshotIndex.OrderMattersExactly`). Of the snapshots on the
  query's stream the search considers exactly those that are confirmed, stored with trimmed authority
  and kind, in time and not revoked (`SnapshotIndex.UntrimmedIsNeverFound`).
* The keys of the snapshot streams are joined with colons that the names may hold too, so two streams
  can share their keys (`SnapshotIndex.ColonsCollide`). The names can be told from the key exactly when
  none holds a colon (`SnapshotIndex.KeyIsReadableExactly`).
* docs/enterprise/air-gapped-artifact-contract.md (section 4, item 7) says that a package may not be
  run again. The code records consumption after the result is linked, so a crash or an error between
  the two lets a second run publish (`AirgapRepublish.CrashWindowPublishesTwice`). A package can be published,
  again or for the first time, exactly as long as its marker is missing
  (`AirgapRepublish.PublishableUntilMarked`); at most one run ever completes.
* The error summary of a failed offline build is cut at 2000 bytes. When the cut falls inside a rune
  the envelope fails its own self-check and no result is written (`AirgapResult.CreateResultEnvelope`,
  `AirgapResult.CutThroughRune`).
* `RFC3339Nano` prints up to nine fraction digits, while section 6 of RFC 5424 allows six: a message
  stamped with the current time parses exactly when its nanoseconds are a multiple of 1000
  (`SyslogMessage.ParsePrint`). Events that carry their own millisecond time always parse.
* Alert intervals separate adjacent attempts and deliveries of one fingerprint, and all of them
  exactly when no recent one is brought back as a change (`AlertDelivery.RetrySeparatesExactly`,
  `AlertDelivery.ReminderSeparatesExactly`, `AlertDelivery.FlappingBypassesIntervals`). Recovery attempts
  are separated exactly when none follows a recent one across a firing observation, even one that was
  held back (`AlertDelivery.RecoverySeparatesExactly`, `AlertDelivery.HeldFiringBringsRecoveryBack`).
* Nonces stop every replay exactly when their lifetime exceeds twice the skew plus the delay between
  the two checks; the defaults do not satisfy this (`RequestReplay.ReplayFreedom`,
  `RequestReplay.DefaultsAdmitReplay`). A stamp more than 292 years ahead saturates the difference,
  passes the window and is not covered by any lifetime (`RequestReplay.WindowIsExact`,
  `RequestReplay.SaturatedStampsReplay`).
* A ZIP entry named ".." passes the path test (`AirgapPackage.SafePathMeans`). A package that holds one
  is rejected all the same, since no declared path can match it (`AirgapPackage.DeclaredPathStaysInside`).
* Under the prefix "." customer object references are written but do not read back
  (`CustomerObjects.OutputReferenceReadsBack`).
* A kline that comes without a revision is ranked by the server's clock while the stored envelope
  still says 0: stored envelopes are in order exactly when none follows a larger revision of an equal
  source this way, and such a write shuts out exactly the revisions below its clock
  (`MarketDataCache.StoredOrderIsExact`, `MarketDataCache.ClockShutsOutExactly`).
* When the executor names no log, the completion report passes the executor's own log fields on
  unconfirmed (`TaskRun.CompleteMeansConfirmed`).
* Allowlist ports are compared as text: a rule reaches the port it names exactly when it is written
  without a sign and without leading zeros (`Allowlist.PortsCompareAsText`). A rule with the port `+443`
  or `0443` is accepted and never matches port 443 (`Allowlist.AcceptedButUnreachable`).

## Model

| member | source | states |
|---|---|---|
| SnapshotIndex.LatestAndHotWindow | common/market/settlement_snapshot.go:145-177 | over every interleaving of any number of publishers, crashed ones included, "latest" is the lexicographic maximum of everything scripted and no fully published snapshot inside the hot window is missing from the hot set |
| SnapshotIndex.EveryPublicationCounts | common/market/settlement_snapshot.go:145-177 | the snapshots these results speak of are the publishable ones whose script ran, and a publication counts as complete once its pipeline has run |
| SnapshotIndex.HotSetIsExact | common/market/settlement_snapshot.go:161-177 | in every interleaved run the hot set holds exactly the snapshots that some pipeline added and that neither it nor a later pipeline pruned |
| SnapshotIndex.BoundIsOfItsScript | common/market/settlement_snapshot.go:161-165 | the bound a publisher prunes below is the window below what was "latest" right after its own script, however late its pipeline runs |
| SnapshotIndex.StepKeepsInvariant | common/market/settlement_snapshot.go:145-177 | the index invariant survives each script step and each pipeline step |
| SnapshotIndex.SequentialPublishes | common/market/settlement_snapshot.go:145-177 | without overlap, "latest" is the first snapshot of greatest rank and the hot set is exactly the window below it |
| SnapshotIndex.OrderIndependence | common/market/settlement_snapshot.go:145-177 | two orders of the same publications end in the same state when the greatest rank is held by one snapshot |
| SnapshotIndex.OrderMattersExactly | common/market/settlement_snapshot.go:145-177 | all orders and repetitions of the same publications end in the same state if and only if the greatest rank is held by one snapshot alone |
| SnapshotIndex.TiesKeepTheFirst | common/market/settlement_snapshot.go:22-41 | with two snapshots of the greatest rank the first published stays, so the order does decide |
| SnapshotIndex.SearchIsComplete | common/market/settlement_snapshot.go:188-222 | on a stream whose publishers trim their names, in any interleaved run, the search returns a maximum over all published snapshots that are in range and not revoked, and none only if there is none, when the lookback lies in the hot window and the page decides |
| SnapshotIndex.SearchAgreesWithHistory | common/market/settlement_snapshot.go:188-222 | for any stream the search over the hot set agrees with the same search over the complete publication history |
| SnapshotIndex.PageGuardIsExact | common/market/settlement_snapshot.go:194-221 | the page decides if and only if no hot set with the same page could hold a better answer |
| SnapshotIndex.UntrimmedIsNeverFound | common/market/settlement_snapshot.go:203-211 | of the snapshots on the query's stream the loop keeps exactly those that are confirmed, stored with trimmed authority and kind, in time and not revoked |
| SnapshotIndex.SnapshotStore.RunLatestScript | common/market/settlement_snapshot.go:22-41 | the script replaces the value unless an equal or greater rank is there, and replies with the source time that stays |
| SnapshotIndex.SnapshotStore.RunHotPipeline | common/market/settlement_snapshot.go:166-176 | the pipeline adds a snapshot inside the window and prunes everything below it, for this key only |
| SnapshotIndex.StreamsHaveTheirOwnKeys | common/market/settlement_snapshot.go:250-258 | two streams share their keys exactly when authority, kind, category, market and symbol all agree up to letter case and surrounding spaces, unless both hold colons |
| SnapshotIndex.KeyIsReadableExactly | common/market/settlement_snapshot.go:250-258 | the five texts can be told from the joined key if and only if none of them holds a colon |
| SnapshotIndex.ColonsCollide | common/market/settlement_snapshot.go:250-258 | two different streams, with colons in their names, that share their keys |
| SnapshotIndex.SnapshotStore.PublishAuthoritativeSnapshot | common/market/settlement_snapshot.go:145-177 | rejects exactly the unpublishable snapshots without effect; otherwise script then pipeline on every name of the snapshot's own stream, and no other stream changes unless both names hold colons |
| SnapshotIndex.SnapshotStore.RevokeAuthoritativeSnapshot | common/market/settlement_snapshot.go:226-236 | revokes the trimmed id exactly when id and reason are given and the replacement differs |
| SnapshotIndex.SnapshotStore.FindAuthoritativeSnapshotAt | common/market/settlement_snapshot.go:188-222 | each error case, and otherwise the best candidate of the page that is confirmed, matching, in time and not revoked |
| AirgapManifest.ValidateArtifacts | common/airgap/manifest.go:268-295 | accepts exactly the lists whose artifacts are each acceptable, with distinct paths, distinct roles except template files, and a source when one is required |
| AirgapManifest.CountRoles | common/airgap/manifest.go:204-213 | the count map equals the number of artifacts of every role, or an artifact is unacceptable |
| AirgapManifest.ValidateTaskManifest | common/airgap/manifest.go:193-217 | accepts exactly the manifests with a valid identity, valid inputs, one source, one keystore and at most one logo and splash |
| AirgapManifest.ValidateResultManifest | common/airgap/manifest.go:220-266 | accepts exactly the manifests whose status, error text and outputs agree |
| AirgapManifest.DistinctRolesCount | common/airgap/manifest.go:204-215 | once roles are distinct the cardinality test only adds that the role occurs |
| AirgapManifest.DecodeTaskEnvelope | common/airgap/manifest.go:114-126 | whatever is accepted is valid and encodes back to the very same bytes |
| AirgapManifest.DecodeResultEnvelope | common/airgap/manifest.go:142-157 | whatever is accepted is valid and encodes back to the very same bytes |
| AirgapManifest.DecodeTask | common/airgap/manifest.go:114-189 | the steps of decoding (size, strict JSON, canonical form, manifest, signature) accept what the specification accepts |
| AirgapManifest.DecodeResult | common/airgap/manifest.go:142-189 | the same for results, with the certificate's bounds |
| AirgapManifest.PatternsMatch | common/airgap/manifest.go:29-32 | identifiers and digests are exactly the texts of the two regular expressions |
| AirgapPackage.DeclaredPathStaysInside | common/airgap/package.go:257-263 | an accepted declared path has only proper components, so extraction stays in its directory |
| AirgapPackage.SafePathMeans | common/airgap/package.go:257-263 | the safe paths are exactly the trimmed texts of proper components without backslashes, NUL and line ends, and a lone ".." |
| AirgapPackage.CopySource | common/airgap/package.go:81-96 | a source is written exactly when it is readable and has the declared size and digest |
| AirgapPackage.WritePackage | common/airgap/package.go:56-103 | writing succeeds exactly when every artifact is writable and the output takes every entry, and yields the manifest followed by the artifacts in order |
| AirgapPackage.WriteTaskPackage | common/airgap/package.go:33-42 | succeeds exactly when the envelope passes its own decoding, every input is writable and the output takes it |
| AirgapPackage.WriteResultPackage | common/airgap/package.go:45-54 | the same for results |
| AirgapPackage.OpenPackage | common/airgap/package.go:157-181 | opens exactly the containers within the limits whose entries are safe, stored, uniquely named and include the manifest |
| AirgapPackage.WrappingTotalIsExact | common/airgap/package.go:200-211 | although the int64 sum of sizes may wrap, it passes the limit checks exactly when the true sum does |
| AirgapPackage.ExpectArtifacts | common/airgap/package.go:200-211 | the map of expected files, or rejection on a negative or excessive running total |
| AirgapPackage.ConsumePackageArtifacts | common/airgap/package.go:199-255 | each declared file is streamed to the consumer in path order with size and digest checked, stopping at the first failure |
| AirgapProtocol.ReadTaskPackage | common/airgap/package.go:118-135 | refines the reader's specification, the deliveries to the consumer included |
| AirgapProtocol.ReadResultPackage | common/airgap/package.go:138-155 | the same for results |
| AirgapProtocol.AcceptedTaskIsFaithful | common/airgap/package.go:118-135 | acceptance means: entries are exactly manifest and declared inputs, each input delivered once, in full, with declared size and digest, true total within the limit |
| AirgapProtocol.AcceptedResultIsFaithful | common/airgap/package.go:138-155 | the same for results |
| AirgapProtocol.TaskAcceptedExactly | common/airgap/package.go:118-255 | a task package is accepted with a given envelope if and only if the container is well packed, its manifest decodes to that envelope, its other entries are exactly the declared inputs within the total, and each is there in full with its size and digest and is consumed |
| AirgapProtocol.ResultAcceptedExactly | common/airgap/package.go:138-255 | the same for results |
| AirgapProtocol.EntryOrderIsIrrelevant | common/airgap/package.go:157-255 | reordering the ZIP entries changes neither the verdict nor what the consumer receives |
| AirgapProtocol.TaskRoundTrip | common/airgap/package.go:33-135 | what the writer writes, within the limits only the reader checks, is read back as the same envelope, every source byte delivered once |
| AirgapProtocol.ResultRoundTrip | common/airgap/package.go:45-155 | the same for results |
| AirgapBundle.IdentityInjective | local-agent/air_gapped.go:262-276 | the text a role and an object id are joined into determines both |
| AirgapBundle.MatchInputs | local-agent/air_gapped.go:262-281 | the shrinking map with the length test accepts exactly the one-to-one correspondences, and each input then points at its own file |
| AirgapBundle.DecodeBuildBundle | local-agent/air_gapped.go:243-282 | the bundle is accepted exactly when its head matches the manifest and its inputs correspond one to one |
| AirgapBundle.DuplicateIdentityIsRejected | local-agent/air_gapped.go:262-281 | a manifest that declares an identity twice is rejected whatever the bundle says |
| AirgapBundle.PartnersAreUnique | local-agent/air_gapped.go:262-281 | acceptance pairs inputs and artifacts off without repeats on either side |
| AirgapReplay.KeysAreDistinct | local-agent/air_gapped.go:468-478 | two packages share a lock and a marker exactly when code and nonce are the same |
| AirgapReplay.StepKeepsSafe | local-agent/air_gapped.go:468-512 | every step of every run, crashes included, keeps the lock and marker invariant |
| AirgapReplay.ConsumedAtMostOnce | local-agent/air_gapped.go:83-129 | in every interleaving at most one run per package completes, at most one at a time is past the marker check, and none once the package is consumed |
| AirgapReplay.ConsumptionIsPermanent | local-agent/air_gapped.go:480-504 | a consumed package stays consumed in every continuation and keeps the result its run linked |
| AirgapCommand.StateDirectory.Lock | local-agent/air_gapped.go:468-496 | it may fail before it has the lock; it waits while other runs take any steps of theirs; then it keeps the lock exactly when looking succeeds and finds no marker |
| AirgapCommand.StateDirectory.Publish | local-agent/air_gapped.go:420-461 | the result is linked exactly when its name is free, and stays when hashing it then fails |
| AirgapCommand.StateDirectory.Consume | local-agent/air_gapped.go:498-504 | the marker is written and renamed, or the result is removed again and the lock released |
| AirgapCommand.StateDirectory.BuildCommand | local-agent/air_gapped.go:83-130 | a command that is not killed succeeds exactly when nothing fails and, after the wait for the lock, the package is unconsumed and the name is free; it then adds the marker and its own result, and no failure other than one right after linking leaves a result; its steps continue any run that led to its start, so at most one run per package completes |
| AirgapCommand.LaterCommandsFail | local-agent/air_gapped.go:83-130 | once a run has completed, whatever other runs do next, the marker is there for every later command of the package, which therefore fails |
| AirgapRepublish.PublishableUntilMarked | local-agent/air_gapped.go:83-130 | after any events, some continuation publishes a result for a package if and only if the package has no marker, whatever was published before |
| AirgapReplay.EarlierPublisherDidNotComplete | local-agent/air_gapped.go:112-128 | when two results for one package were published, the earlier run is over and never completed |
| AirgapRepublish.CrashWindowPublishesTwice | local-agent/air_gapped.go:118-128 | the run in which a crash between linking and marking lets a package be published twice |
| AirgapResult.RemoveApk | local-agent/air_gapped.go:586-594 | the filter over the slice's own memory leaves everything but the APK in front, in order, and nothing is overwritten before it is read |
| AirgapResult.FilterIsPiecewise | local-agent/air_gapped.go:586-594 | what the filter leaves is determined part by part and artifact by artifact |
| AirgapResult.CollectOutputs | local-agent/air_gapped.go:341-367 | which failure counts and which outputs survive, for every executor outcome |
| AirgapResult.SanitizedErrorIsValid | local-agent/air_gapped.go:578-584 | a sanitised error always meets the validator: at most 2000 bytes, no NUL or CR, blank only if empty |
| AirgapResult.ChooseMessage | local-agent/air_gapped.go:371-377 | the summary is the first candidate of which anything is left, and it is valid |
| AirgapResult.CreateResultManifest | local-agent/air_gapped.go:336-384 | for every executor outcome the manifest satisfies the validator and names its task, certificate and package field by field; it says FAILED exactly when the run failed, reported an error or left a named output unusable, and then summarises why; it declares exactly the usable files |
| AirgapResult.StripIsPiecewise | local-agent/air_gapped.go:578-579 | of an error text NUL and CR are dropped and nothing else |
| AirgapResult.SanitizedIsValidUtf8 | local-agent/air_gapped.go:578-584 | the cut text is valid UTF-8 exactly when no rune is split |
| AirgapResult.SelfCheck | common/airgap/manifest.go:171-189 | decoding one's own encoding succeeds exactly when the error text is valid UTF-8 |
| AirgapResult.CreateResultEnvelope | local-agent/air_gapped.go:385-397 | an envelope comes out exactly when it fits and the error text is not cut inside a rune; it carries that manifest, the signature of it and the certificate |
| AirgapResult.CutThroughRune | local-agent/air_gapped.go:578-584 | a text whose cut splits a rune, so that no result is written |
| SyslogMessage.EscapeSyslogParam | common/siem/exporter.go:400-419 | the loop writes the escaped value up to its limit |
| SyslogMessage.TruncationIsTight | common/siem/exporter.go:414-416 | a value is at most 259 bytes, whole escapes only, and characters are dropped only once 256 bytes are out |
| SyslogMessage.EscapedValueIsRead | common/siem/exporter.go:400-419 | unescaping as in section 6.3.3 of RFC 5424 gives the cleaned kept prefix and stops at the closing quote |
| SyslogMessage.RecoveredReadsAs | common/siem/exporter.go:400-419 | what is recovered is the text character by character, an underscore for each control character, all of it unless the first ones already fill the limit |
| SyslogMessage.SanitizeSyslogHeader | common/siem/exporter.go:378-398 | a header field is never empty, within its limit, and free of separators |
| SyslogMessage.ResolveHeaders | common/siem/exporter.go:143-153 | the host and application names that New settles on are valid header fields |
| SyslogMessage.StampIsTimestamp | common/siem/exporter.go:360-371 | the time stamp meets section 6 of RFC 5424 exactly when nothing finer than a microsecond is left |
| SyslogMessage.ParsePrint | common/siem/exporter.go:355-376 | an RFC 5424 parser accepts the message exactly when the stamp is valid, and recovers every header field, both ids, and module and action, which come back as they were when they hold no control characters and fit the limit |
| SyslogMessage.EventTimeParses | common/siem/exporter.go:360-363 | messages stamped with an event's own millisecond time always parse |
| SyslogMessage.MessageDeterminesEvent | common/siem/exporter.go:355-376 | the text determines both ids, the payload and the cleaned kept prefixes of module and action, and module and action themselves when they are free of control characters and fit the limit |
| SyslogFrame.DeframeFrame | common/siem/exporter.go:278 | deframing undoes framing whatever bytes the message holds and whatever follows (section 4.3 of RFC 5425) |
| SyslogFrame.PartialFrameWaits | common/siem/exporter.go:278 | no strict prefix of a frame is taken for a frame |
| SyslogFrame.FramesDecodeUniquely | common/siem/exporter.go:278 | any run of frames decodes to exactly the framed messages |
| SyslogFrame.FramesAreInjective | common/siem/exporter.go:278 | two runs of frames with the same bytes carry the same messages |
| SyslogFrame.Connection.WriteFrame | common/siem/exporter.go:293-303 | the write loop succeeds exactly when the connection takes all bytes; then exactly the frame went out, otherwise a prefix of it |
| SyslogFrame.WireRoundTrip | common/siem/exporter.go:273-376 | framed bytes, deframed, decoded and parsed, give back the event: its ids, and its module and action as far as they fit the limit |
| ExporterQueue.Exporter.Export | common/siem/exporter.go:188-199 | an event is queued exactly when there is room and is counted as dropped otherwise |
| ExporterQueue.Exporter.SendWithRetry | common/siem/exporter.go:216-235 | the retry loop settles the event in flight as specified, whatever is exported meanwhile |
| ExporterQueue.Exporter.Start | common/siem/exporter.go:168-184 | the worker's loop refines the specified run |
| ExporterQueue.Conservation | common/siem/exporter.go:168-235 | in every state of every interleaving, attempts and back-offs included: accepted = delivered + failed + queued + in flight in acceptance order, offered = accepted + dropped, the queue is within capacity, and each event is sent between 1 and MaxAttempts times |
| ExporterQueue.MoveKeepsSound | common/siem/exporter.go:168-235 | every call, receive, attempt and cancellation keeps the books balanced |
| ExporterQueue.RunTakesSteps | common/siem/exporter.go:168-235 | every run of the worker's loop is a sequence of those steps |
| ExporterQueue.EveryOfferCounts | common/siem/exporter.go:188-199 | every offered event is accepted in its place or counted as dropped |
| ExporterQueue.RetryMeaning | common/siem/exporter.go:216-235 | an event is delivered exactly when an attempt succeeds before the attempts run out or the context ends |
| ExporterQueue.Drains | common/siem/exporter.go:168-184 | without new offers or shutdown the queue empties and every accepted event has its outcome |
| MarketDataCache.KlineKey.RunVersionedScript | common/market/market_data_cache.go:24-36 | the script refuses exactly the writes below the live rank and otherwise sets both keys |
| MarketDataCache.KlineKey.Set | common/market/market_data_cache.go:123-135 | a kline write is ranked by its source and by its revision or, without one, the clock, and holds its rank for the stale time in force |
| MarketDataCache.KlineKey.SetKlineStaleTTL | common/market/market_data_cache.go:78-85 | a positive stale time holds for the writes that follow; the keys already written keep theirs |
| MarketDataCache.AcceptedWritesAreOrdered | common/market/market_data_cache.go:24-36 | in every run, whatever stale times are configured on the way, accepted writes do not go down in (priority, revision) as long as no stale time passes between them without another; in particular those closer together than every stale time |
| MarketDataCache.LiveValueIsLastAccepted | common/market/market_data_cache.go:24-36 | in every run the live value is the last accepted write until it expires |
| MarketDataCache.AcceptanceIsExact | common/market/market_data_cache.go:24-36 | a write is accepted exactly when none was before, the stale time of the last one has passed, or the rank does not go down |
| MarketDataCache.SourcesDecide | common/market/market_data_cache.go:184-193 | after any run a write replaces that of a worse source whatever the revisions (the live feed before derived, derived before all others), within the stale time none of a worse source is accepted, and equal sources compare revisions |
| MarketDataCache.StoredOrderIsExact | common/market/market_data_cache.go:112-135 | the stored envelopes of accepted writes that no stale time separates are in rank order if and only if the later one does not come without a revision after an equal source's larger one |
| MarketDataCache.RevisedWritesStoreInOrder | common/market/market_data_cache.go:112-135 | when every write carries a revision the stored envelopes are in rank order |
| MarketDataCache.ClockShutsOutExactly | common/market/market_data_cache.go:123-135 | after any run, a write without a revision shuts out of the next equal source's revisions exactly those below its clock, until its stale time has passed |
| MarketDataCache.ClockShadowsRevisions | common/market/market_data_cache.go:120-134 | a write without a revision that shuts out a larger revision than its envelope holds |
| MarketDataCache.RealtimeKey.Set | common/market/market_data_cache.go:136-160 | timed writes go through the script, untimed ones overwrite the value alone, with the topic's lifetime |
| MarketDataCache.RealtimeRuns | common/market/market_data_cache.go:38-46 | in every run the live value is the last accepted write, timed writes within a lifetime strictly rise, and a write is dropped exactly when a fresh accepted one is not older |
| AlertDelivery.DeliveryTracker.ShouldPublishFiring | common/alert/tracker.go:18-44 | opens the incident, forgets the last recovery attempt, and decides as specified |
| AlertDelivery.DeliveryTracker.MarkFiringAttempt | common/alert/tracker.go:46-58 | records the attempt and, if delivered, the delivery |
| AlertDelivery.DeliveryTracker.ShouldPublishResolved | common/alert/tracker.go:63-76 | clears an undelivered incident silently and otherwise decides as specified |
| AlertDelivery.DeliveryTracker.MarkResolvedAttempt | common/alert/tracker.go:78-83 | records the attempt, or forgets everything once delivered |
| AlertDelivery.DeliveryTracker.Observe | common/alert/tracker.go:5-7 | one turn of the ask, publish and mark protocol |
| AlertDelivery.TrackerIsView | common/alert/tracker.go:8-16 | in every run the seven fields are exactly a view of the history |
| AlertDelivery.AttemptsRespectRetry | common/alert/tracker.go:33-43 | adjacent attempts of one fingerprint in an incident are at least the retry interval apart |
| AlertDelivery.DeliveriesRespectReminder | common/alert/tracker.go:42-43 | adjacent deliveries of one fingerprint in an incident are at least the reminder interval apart |
| AlertDelivery.ResolvesRespectRetry | common/alert/tracker.go:74-75 | recovery attempts with no firing observation between them are at least the retry interval apart |
| AlertDelivery.RecoveryIsRetried | common/alert/tracker.go:63-83 | in every run a recovery is attempted if and only if its incident has a delivered firing and no failed attempt since the last firing observation is younger than the retry interval |
| AlertDelivery.RecoveryHasItsFiring | common/alert/tracker.go:60-76 | every published recovery follows a delivered firing of its own incident |
| AlertDelivery.RecoveriesNeverOutnumberFirings | common/alert/tracker.go:60-83 | at every point there are no more delivered recoveries than delivered firings |
| AlertDelivery.OnlyUndeliveredIncidentsClear | common/alert/tracker.go:70-73 | no incident ends silently after a delivered firing |
| AlertDelivery.HeldForAReason | common/alert/tracker.go:33-43 | a firing observation is held back only because of a recent attempt or delivery in the same incident |
| AlertDelivery.AttemptsApartWithoutChange | common/alert/tracker.go:33-43 | two attempts of one fingerprint in an incident with none for another between them are at least the retry interval apart |
| AlertDelivery.AlwaysAttempted | common/alert/tracker.go:33-43 | a firing observation is attempted whatever the intervals if and only if it is the incident's first attempt or changes to a fingerprint that does not stand delivered |
| AlertDelivery.RetrySeparatesExactly | common/alert/tracker.go:33-43 | in every run the retry interval separates all attempts of one fingerprint in an incident if and only if no such change brings back one attempted less than the interval ago |
| AlertDelivery.ReminderSeparatesExactly | common/alert/tracker.go:38-43 | in every run the reminder interval separates all deliveries of one fingerprint in an incident if and only if none delivered less than the interval ago is taken again as a change |
| AlertDelivery.RecoverySeparatesExactly | common/alert/tracker.go:32-89 | in every run the retry interval separates all recovery attempts of an incident if and only if none is observed soon after another with a firing observation since |
| AlertDelivery.HeldFiringBringsRecoveryBack | common/alert/tracker.go:32-89 | a run in which a firing that is held back lets two recovery attempts come close together |
| AlertDelivery.FlappingBypassesIntervals | common/alert/tracker.go:38-41 | a fingerprint that flaps, attempted on every change |
| RequestReplay.WindowIsExact | common/reqenc/middleware.go:80-83 | the window is the skew on either side of the clock together with the stamps whose distance saturates |
| RequestReplay.FarStampPasses | common/reqenc/middleware.go:208-213 | a stamp far outside the window that passes |
| RequestReplay.IntegerForms | common/reqenc/middleware.go:80 | a stamp is read exactly if it is digits after at most one sign and fits an int64 |
| RequestReplay.Middleware.UseNonce | common/reqenc/store.go:56-58 | a nonce is taken exactly when the command takes effect and it is not live, and then lives for its lifetime |
| RequestReplay.Middleware.CheckURLSafe | common/reqenc/middleware.go:198-206 | accepts exactly letters, digits, hyphen and underscore |
| RequestReplay.Middleware.DecryptRequest | common/reqenc/middleware.go:70-114 | each outcome in the order of the checks, failing lookups and commands included, and the nonce spent only after all of them |
| RequestReplay.NonceKeysAreDistinct | common/reqenc/store.go:32-34 | distinct (key id, nonce) pairs never share a store key |
| RequestReplay.AcceptanceIsExact | common/reqenc/middleware.go:70-114 | in every run a request gets through if and only if its headers, stamp and unexpired session pass, its nonce command is answered, and no earlier request took the same key id and nonce less than a lifetime ago |
| RequestReplay.LifetimeIsPositive | common/reqenc/store.go:56-58 | a nonce lives for the whole seconds of the configured lifetime, and for at least one |
| RequestReplay.AcceptancesApart | common/reqenc/middleware.go:97-103 | in every run two uses of one key id and nonce that get through are a lifetime apart |
| RequestReplay.ReplayFreedom | common/reqenc/middleware.go:80-103 | no (key id, time, nonce) gets through twice in any run of ordinary stamps if and only if the lifetime exceeds twice the skew plus the delay |
| RequestReplay.SaturatedStampsReplay | common/reqenc/middleware.go:80-103 | a stamp whose distance saturates now and a lifetime from now gets through at both times, for every skew and lifetime |
| RequestReplay.DefaultsAdmitReplay | common/reqenc/config.go:54-59 | the default skew and lifetime do not meet that condition |
| TaskInputs.LimitedCopyDecides | local-agent/main.go:802-807 | copying one byte more than expected decides about the whole body |
| TaskInputs.TargetsDistinct | local-agent/main.go:765 | inputs at different places never share a file, whatever their names |
| TaskInputs.TargetText | local-agent/main.go:757-765 | the file name of an input: its place in two digits, the safe part of its role, its id, and a short extension |
| TaskInputs.SafeIsPiecewise | local-agent/main.go:1027-1035 | of a role exactly letters, digits, hyphens and underscores get into the name |
| TaskInputs.ExtForms | local-agent/main.go:757-760 | the extension is the last dot of the last component and what follows it |
| TaskInputs.DigestForms | local-agent/main.go:928-932 | the accepted digests are exactly 64 hex digits of either case, with any spaces around them |
| TaskInputs.RouteForms | local-agent/main.go:899-911 | the accepted transfer paths are exactly one segment under the route |
| TaskInputs.WorkDir.DownloadArtifactFile | local-agent/main.go:774-810 | the file exists afterwards only if the download is whole and as declared |
| TaskInputs.WorkDir.DownloadArtifactInputs | local-agent/main.go:740-772 | succeeds exactly when every input is delivered as declared; then each names a file of its own holding exactly those bytes |
| TaskInputs.WorkDir.CopyVerifiedCustomerObject | local-agent/customer_storage.go:616-641 | the file exists afterwards only if the object is whole and as declared |
| TaskInputs.WorkDir.DownloadCustomerArtifactInputs | local-agent/customer_storage.go:687-722 | succeeds exactly when every input is owned, well referenced and held in full |
| CustomerObjects.ValidCustomerObjectKey | local-agent/customer_storage.go:939-951 | accepts exactly the clean relative keys over the allowed characters without ".." |
| CustomerObjects.ValidKeyMeans | local-agent/customer_storage.go:939-951 | the valid keys are exactly the paths of proper components over the allowed characters without two dots in a row, and "." |
| CustomerObjects.OutputKeysAreDistinct | local-agent/customer_storage.go:578-592 | every task, attempt and role has its own key under any valid prefix |
| CustomerObjects.OutputKeysAreValid | local-agent/customer_storage.go:578-599 | output keys are valid keys, so their reference is always formed |
| CustomerObjects.OutputKeyText | local-agent/customer_storage.go:578-592 | an output key exists exactly for positive ids and is the prefix, the task, the attempt and the file name of the role |
| CustomerObjects.AcceptedReferencesCorrespond | local-agent/customer_storage.go:601-614 | whatever the URL parser does, two accepted references name the same agent and key if and only if they are the same text apart from surrounding spaces |
| CustomerObjects.ReferencesAreDistinct | local-agent/customer_storage.go:594-599 | a reference determines agent and key |
| CustomerObjects.ReferencesAreFormed | local-agent/customer_storage.go:594-599 | a reference is formed exactly for a positive agent id and a valid key |
| CustomerObjects.AcceptedReferences | local-agent/customer_storage.go:601-616 | the accepted texts are exactly the references of this agent to valid keys under the prefix, spaces around them aside |
| CustomerObjects.ParseOfReference | local-agent/customer_storage.go:594-614 | reading a reference back gives its key exactly when the key lies under the prefix |
| CustomerObjects.OutputReferenceReadsBack | local-agent/customer_storage.go:578-614 | an output's reference reads back under its own prefix exactly when that prefix is not "." |
| TaskRun.LocalAgent.UploadArtifactOutput | local-agent/main.go:825-877 | an answer counts only if it confirms the local size and digest |
| TaskRun.LocalAgent.UploadArtifactOutputWithRefresh | local-agent/main.go:812-823 | one retry with fresh tickets |
| TaskRun.LocalAgent.UploadCustomerArtifactOutput | local-agent/customer_storage.go:724-747 | put, read back and compare, then the reference |
| TaskRun.LocalAgent.FetchInputs | local-agent/main.go:548-588 | verified inputs in the work directory, or the failure to report |
| TaskRun.LocalAgent.ReportFailedBuild | local-agent/main.go:615-641 | the failure report of a failed build, with the log if it could be uploaded |
| TaskRun.LocalAgent.PublishResult | local-agent/main.go:642-704 | from a clean build to its one terminal report |
| TaskRun.LocalAgent.ExecuteTask | local-agent/main.go:503-705 | at most one terminal report, the specified one; only verified inputs reach the executor, without their remote sources; success only if "complete" was sent and taken |
| TaskRun.RunsExactly | local-agent/main.go:503-604 | a run reaches the executor if and only if its bundle is of this protocol and not blocked, the agent's preparations succeed and all inputs arrive, at once, after one refresh or out of the registered store; the executor gets those inputs, each with a file of its own |
| TaskRun.CompleteMeansConfirmed | local-agent/main.go:642-704 | "complete" implies verified inputs, a clean build and an APK confirmed with the local file's size and digest; a named log is confirmed the same way |
| TaskRun.CustomerRunsComplete | local-agent/main.go:642-704 | a customer-storage run completes if and only if it gets to a clean build whose outputs the store gives back with their size and digest |
| TaskRun.CustomerRunsStoreTheFiles | local-agent/customer_storage.go:643-685 | unless the digest collides on the compared bytes, it completes if and only if the store holds those very files |
| TaskRun.ControlPlaneRunsComplete | local-agent/main.go:642-704 | a control-plane run completes with exactly the uploads that were answered with the local size and digest, at once or after one more refresh, and only then |
| TaskRun.FailedBuildsReport | local-agent/main.go:615-641 | every run with a failed build reports the result's error or else the run's, with the output digest, cut at 1900 bytes, and the log: the uploaded one exactly when an upload is confirmed, otherwise the executor's own claim |
| TaskRun.CustomerReferencesAreUnique | local-agent/customer_storage.go:578-599 | two completed runs share an APK reference only if they are the same attempt of the same task of the same agent |
| Allowlist.ValidDNSName | common/egressproxy/allowlist.go:89-104 | accepts exactly the names whose labels are valid |
| Allowlist.DNSNamesMeetLimits | common/egressproxy/allowlist.go:89-104 | the accepted names are exactly those within the limits of section 2.3.4 of RFC 1035 over letters, digits and inner hyphens |
| Allowlist.HostPortForms | common/egressproxy/allowlist.go:65-68 | the texts split into host and port are exactly `host:port` without further marks and `[host]:port` |
| Allowlist.PortForms | common/egressproxy/allowlist.go:69-71 | the accepted ports are exactly the digits for 1 to 65535 after at most one plus sign |
| Allowlist.SpellingsAgree | common/egressproxy/allowlist.go:72 | hosts compare equal exactly when they agree up to letter case; spaces around them and one trailing dot do not matter |
| Allowlist.CommentsAreIgnored | common/egressproxy/allowlist.go:36-45 | a comment and the spaces around a target are no part of it |
| Allowlist.ParseRule | common/egressproxy/allowlist.go:64-87 | every parsed rule has a port from 1 to 65535 and an IP address or a name within the limits, never a wildcard over an address |
| Allowlist.ParseAllowlist | common/egressproxy/allowlist.go:32-62 | a file is accepted exactly when it is readable and its 1 to 1024 targets all parse, giving one rule each in order |
| Allowlist.SuffixMeansLabels | common/egressproxy/allowlist.go:117 | the text suffix test is the same as a proper suffix of labels |
| Allowlist.Allows | common/egressproxy/allowlist.go:107-122 | a destination is allowed exactly when some rule matches it label by label |
| Allowlist.WildcardNeedsWholeLabels | common/egressproxy/allowlist.go:115-118 | a wildcard matches neither its own domain nor a name that merely ends in the same letters |
| Allowlist.PrintedRuleParses | common/egressproxy/allowlist.go:64-87 | every rule for a name, written as text, parses back to itself |
| Allowlist.PortsCompareAsText | common/egressproxy/allowlist.go:69-71 | a rule matches the number its port denotes, on any host, exactly when the port has no sign and no leading zero, and it matches no other number |
| Allowlist.AcceptedButUnreachable | common/egressproxy/allowlist.go:64-87 | for every name, `0443` and `+443` are accepted as its port and the rule then matches no host on 443 |
| BoundedDecimal.DigitCountIsBound | common/conv/number.go:48-56 | at most n digits without leading zeros is the same as being below 10^n |
| BoundedDecimal.AcceptanceIsNumeric | common/conv/number.go:38-65 | a non-empty text is accepted exactly when it is well formed and its exact value is N / 10^scale with the bound on N |
| BoundedDecimal.EveryTextIsRead | common/conv/number.go:38-65 | the value of every text, read off its sign and digits, and every other text is invalid |
| BoundedDecimal.EmptyIsZero | common/conv/number.go:40-42 | blank text is zero whatever the bounds |
| BoundedDecimal.PrintParse | common/conv/number.go:38-65 | every N / 10^scale within the column is read back exactly, whatever its leading zeros, and nothing else is |

## Left out

- Cryptography and formats: SHA-256, ECDSA, AES-GCM, RSA, X.509, TLS, PEM, JSON, ZIP and URL syntax are abstract; only the laws named in the lemmas are used.
- Strings whose bytes are not UTF-8: texts are rune sequences, as `range` yields them; the byte cuts of error summaries are the exception and are modelled on bytes.
- Case mapping outside ASCII: `ToLower`, `ToUpper` and `EqualFold` map A to Z only.
- Integer widths where no wrap can occur or matter: counters of the exporter (uint64) and identifiers are unbounded; the int64 size accumulator and the Duration arithmetic are modelled with their limits.
- Lua numbers: the scripts compare doubles, which are exact below 2^53.
- Expiry of the snapshot keys, and changes of the hot window during a run.
- Stale times below one millisecond, with which Redis refuses the second of the kline script's two writes.
- `PutSettlementSnapshot`, `snapshotDigest`, `LockPriceSnapshot` and the legacy cache cleanup: single branches.
- Joint injectivity of the colon-joined keys of the kline and realtime cache; the snapshot keys are treated exactly.
- The handlers that Set calls around a cache write, and `ReadMany`.
- Redis failures in the snapshot index and the market data cache: a failed command ends the call with an error and is not a step of the runs.
- `time.Time` differences beyond 292 years in the alert tracker; the request window does model them.
- Executor isolation: `os/exec`, environment variables, file permissions and symbolic links; the files an executor leaves are given as data.
- The lease-renewal goroutine and context cancellation in executeTask as steps of their own: each request of a run has its own answer, and one that is cut short is a failing answer, so the results hold of those runs too.
- The lengths of the exporter's back-off pauses; only their order with the attempts matters here.
- Proxy dialling, TLS handshakes, the HTTPS webhook mode and deadlines of the exporter; a send is an attempt that succeeds or fails.
- Years outside 0 to 9999 in syslog time stamps.
- `decodeCanonical` on task manifests alone, certificate checks and signature verification of AIR_GAPPED packages.
- HTTP handlers, command lines, configuration loading, the control plane's import of results, and the UI.
