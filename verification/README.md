# Verified model of the Hazelcast Node.js client

This project models the parts of the Hazelcast Node.js client whose correctness depends on
the order of events or on exact byte layouts, and proves what they promise. Asynchronous
code is modelled as a machine whose steps are the pieces that run without giving way; a run
is any list of actions, and an action that is not possible changes nothing. Statements about
runs therefore hold for every interleaving. Objects the client updates in place are classes
whose methods are proved to make the step of their machine or to compute its functions.

| files | what they model |
|---|---|
| `ClientMachine`, `ClientLifecycle`, `ClientProgress`, `ClientFailover`, `ClientObjects`, `RoundRobin` | start, shutdown and cluster failover of one client |
| `ProxyRegistry` | reconciling the local distributed objects with those of the cluster |
| `PartitionTable`, `PartitionService` | partition table, versions and partition count |
| `Bytes`, `Framing`, `MessageWriter`, `PipelinedWriter`, `MessageReader`, `Fragments`, `FragmentTransport` | messages as frames and bytes, the coalescing writer, the chunked reader, reassembly of fragments |
| `FrameLayout`, `FixSizedCodec`, `MessageCodecs` | fixed-size fields and the frames of two request codecs and one response |
| `ConfigPatterns`, `BuildInfo` | choice of a configuration by pattern, server version codes |
| `Benchmark`, `Releases` | the benchmark runner and the release selection script |
| `Wrappers`, `Strings` | option and result types, strings as 16-bit code units and searching in them |

`dafny verify dfyconfig.toml` checks everything.

## Where the code differs from what is said about it

- A failover call makes `tryCount` attempts in all. The documentation of the option
  (`src/config/FailoverConfig.ts`, lines 38-40) says `tryCount` times the number of clusters.
  `ClientFailover.BudgetIsNotPerCluster` says exactly when the two agree.
- After listing the distributed objects, the local registry is not always the cluster's: a
  newly seen reliable topic brings a ring buffer that stays although it was not reported.
  `ProxyRegistry.PassMirrorsClusterIff` gives the exact condition, and
  `ProxyRegistry.SecondPass` shows that a second listing puts it right.
- A start that throws right after STARTED, before connecting, leaves the client running;
  `ClientLifecycle.ThrownStartRuns` is such a run and `ClientProgress.FailedStart` says
  exactly which failures leave it running.
- With overlapping failover calls the current cluster need not be the one that connected;
  `ClientFailover.OverlappingSuccess` gives the exact condition, and
  `ClientFailover.SequentialSuccess` the discipline that rules it out.
- A pattern can match an item that no replacement of its star gives, because the parts
  before and after the star may overlap in the item; see `ConfigPatterns.FillsIffLongMatch`.
- Merging fragments loses what follows a fragment that has no frames besides its
  fragmentation frame; see `Fragments.JoinedIsWholeIff`.
- Version codes collide: apart from 0.0.0 to 0.0.99 every version shares its code with
  another (`BuildInfo.UniqueIffFirstHundred`). Among versions whose minor and patch have at
  most two digits they do not, and only such a version is told from all of these by its code
  (`BuildInfo.ToldApartIffCodable`).
- Deliveries of partition tables converge exactly if all carried tables come from one
  connection and those of the highest version agree; see
  `PartitionTables.DeliveryFreeIffOneSourceAgrees`.
- A frame whose length field is zero, or negative and reaching back as far as the bytes do,
  is read again and again, so reading never ends; `Framing.ReadingEndsIff` says exactly when
  it does. Any negative field leaves the reader with a wrong byte count; see
  `MessageReader.ClientMessageReader.ReadFrame`.
- Messages queued when a writer is closed are never settled, neither confirmed nor rejected;
  see `PipelinedWriter.DroppedForEver`. A threshold of zero sends nothing at all; see
  `PipelinedWriter.ZeroThresholdSendsNothing`.

## Model

| member | source | states |
|---|---|---|
| ClientLifecycle.LifeIsAPrefix | src/HazelcastClient.ts:522-542 | over every run of start, any number of shutdown calls, listener calls, failover and failures, what happens is a prefix of one fixed life: STARTING, STARTED, SHUTTING_DOWN, local teardown, CP shutdown resolved, invocation service shut, connection manager shut, SHUTDOWN; so each happens at most once and SHUTDOWN only after all the others |
| ClientLifecycle.EventOrder | src/LifecycleService.ts:108-127 | in every run the emitted events are a prefix of STARTING, STARTED, SHUTTING_DOWN, SHUTDOWN |
| ClientLifecycle.SingleTeardown | src/HazelcastClient.ts:522-526 | of all shutdown calls of a run at most one does any teardown, and the client is not running from then on |
| ClientLifecycle.QuietMeansComplete | src/HazelcastClient.ts:522-542 | once a started client has stopped and no shutdown call is under way or was abandoned by a failure, the whole life has happened |
| ClientProgress.StartProgress | src/HazelcastClient.ts:574-584 | while nothing fails and nobody shuts the client down, STARTING is emitted with the first step of start, STARTED with the second, and the client runs exactly from the second step on |
| ClientProgress.FailedStart | src/HazelcastClient.ts:574-615 | told by the number of steps start has made: a failure within the first two is rethrown and changes nothing; from the third to the sixth the client does not run afterwards, and if it ran, exactly SHUTTING_DOWN is emitted and one more shutdown is under way; before the first and after the seventh step there is no start to fail |
| ClientProgress.FailedStartShutsDown | src/HazelcastClient.ts:607-614 | the shutdown that a failed start begins goes through the rest of the life in every continuation in which it does not fail itself |
| ClientProgress.FailedStartIsOver | src/HazelcastClient.ts:581-614 | after a failure no later step of start does anything |
| ClientProgress.ShutdownProgress | src/HazelcastClient.ts:522-542 | a shutdown call on a running client, interleaved with anything and not failing itself, has gone through 3, 4, 7 and all 8 milestones of the life after none, one, two and three of its steps |
| ClientProgress.FailedShutdown | src/HazelcastClient.ts:526-541 | a shutdown that fails in its first or second step stays where it is in every continuation, with exactly what it had completed, and SHUTDOWN is never emitted |
| ClientLifecycle.ThrownStartRuns | src/HazelcastClient.ts:576-584 | a run in which a start throws right after STARTED and the client stays running |
| ClientLifecycle.RunsAreOrderly | src/HazelcastClient.ts:574-615 | the invariant behind these, for every reachable state |
| ClientLifecycle.StepKeepsOrder | src/HazelcastClient.ts:522-542 | every step of every activity keeps that invariant |
| ClientFailover.RunsAreAccounted | src/ClusterFailoverService.ts:48-72 | over every interleaving of failover calls, start and shutdown, the shared index has advanced by exactly the number of attempts, the attempts used the indexes 1, 2, 3, ... in order, and no call has made more attempts than the budget |
| ClientFailover.NoAttemptOutsideLife | src/ClusterFailoverService.ts:52-55 | whenever an attempt starts, STARTED has been emitted and SHUTTING_DOWN has not |
| ClientFailover.NoAttemptAfterShutdown | src/ClusterFailoverService.ts:52-55 | no attempt follows SHUTTING_DOWN in any log |
| ClientFailover.CallsEnd | src/ClusterFailoverService.ts:52-64 | a call is settled, for good, once as many of its attempts have resolved as its budget had left, whatever else happens |
| ClientFailover.WaitingCallHasProgressed | src/ClusterFailoverService.ts:57-63 | a call still waiting has used one unit of budget for each resolved attempt |
| ClientFailover.SettledStays | src/ClusterFailoverService.ts:52-64 | nothing in the rest of a run changes a settled call |
| ClientFailover.UndisturbedCall | src/ClusterFailoverService.ts:48-64 | the exact state after one undisturbed call, for every list of attempt outcomes |
| ClientFailover.UndisturbedResult | src/ClusterFailoverService.ts:48-72 | an undisturbed call tries the positions after the current one in turn up to the first success; it resolves to true exactly if some attempt succeeds, and then the current cluster is the one that succeeded |
| ClientFailover.FailingCallIsFair | src/ClusterFailoverService.ts:66-72 | when every attempt fails, positions get the same number of attempts up to one, a budget of a full turn reaches every candidate, and the client is back where it started exactly if the number of candidates divides the budget |
| ClientFailover.BudgetIsNotPerCluster | src/config/FailoverConfig.ts:28-44 | a failing call makes the budget in attempts in all; this equals the documented budget times clusters exactly for one cluster or no budget |
| ClientFailover.IdleCallChangesNothing | src/ClusterFailoverService.ts:52-55 | without a budget, or when not running, a call resolves to false and touches nothing |
| ClientFailover.RejectedCall | src/ClusterFailoverService.ts:57-63 | a rejected attempt fails its call for good after the attempts logged for it, and changes nothing else |
| ClientFailover.NoBudgetNoAttempt | src/ClusterFailoverService.ts:53-55 | without a budget no run makes any attempt |
| ClientFailover.OverlappingSuccess | src/ClusterFailoverService.ts:57-72 | in every run, when the attempt a call waits for succeeds, its cluster is the current one exactly if the number of attempts started since, by any calls, is a multiple of the number of candidates |
| ClientFailover.UncontestedSuccess | src/ClusterFailoverService.ts:57-72 | in every run, whatever start, shutdown and rejections came in between: if no other call has started an attempt since, the cluster that succeeded is the current one |
| ClientFailover.SequentialSuccess | src/ClusterFailoverService.ts:48-72 | in every run in which each failover call is made after the earlier ones have settled, a success makes its cluster the current one |
| ClientFailover.RunsWaitForLatest | src/ClusterFailoverService.ts:57-63 | in every run the attempt a call waits for is the latest it has in the log, at the index the call knows |
| ClientFailover.AttemptsSince | src/ClusterFailoverService.ts:70-72 | the index has moved past an attempt by exactly the attempts logged since |
| ClientFailover.OverlappingCallsDisagree | src/ClusterFailoverService.ts:57-72 | a run of two overlapping calls after which the current cluster is not the one that succeeded |
| RoundRobin.VisitCount | src/ClusterFailoverService.ts:66-72 | how often m consecutive positions of a ring hit a given one, exactly |
| RoundRobin.VisitsAreFair | src/ClusterFailoverService.ts:66-72 | any two positions are visited equally often up to one, and a full turn misses none |
| RoundRobin.ReturnsIffDivides | src/ClusterFailoverService.ts:66-72 | advancing comes back to the same position exactly if the ring size divides the advance |
| ClientObjects.LifecycleService.CompleteStart | src/LifecycleService.ts:110-111 | the client is running at the moment STARTED is emitted |
| ClientObjects.LifecycleService.OnShutdownStart | src/LifecycleService.ts:117-120 | the client has stopped running at the moment SHUTTING_DOWN is emitted |
| ClientObjects.ClusterFailoverService.DoTryNext | src/ClusterFailoverService.ts:52-64 | starts exactly one attempt at the next candidate, or settles with false and changes nothing |
| ClientObjects.HazelcastClient.ProceedInit | src/HazelcastClient.ts:574-607 | each stretch of start is the step of the machine |
| ClientObjects.HazelcastClient.FailInit | src/HazelcastClient.ts:581-615 | a failing start is the step of the machine: rethrown before connecting, shut down after |
| ClientObjects.HazelcastClient.BeginShutdown | src/HazelcastClient.ts:522-526 | a shutdown call is ignored or begins, as the machine does |
| ClientObjects.HazelcastClient.ProceedShutdown | src/HazelcastClient.ts:528-541 | each stretch of a shutdown is the step of the machine |
| ClientObjects.HazelcastClient.TryNextCluster | src/ClusterFailoverService.ts:48-50 | a failover call is the step of the machine |
| ClientObjects.HazelcastClient.OnAttemptResolved | src/ClusterFailoverService.ts:57-63 | a resolved attempt settles or continues its call as the machine does |
| ClientObjects.HazelcastClient.OnAttemptRejected | src/ClusterFailoverService.ts:57-63 | a rejected attempt settles its call as failed, as the machine does |
| ClientObjects.HazelcastClient.FailShutdown | src/HazelcastClient.ts:528-541 | a shutdown that fails stops at the stage it has reached, as the machine does |
| ClientObjects.HazelcastClient.constructor | src/HazelcastClient.ts:634-647 | a fresh client is in the initial state of the machine with the configured budget and the configured clusters as candidates, or with none and the one configuration |
| ClientObjects.HazelcastClient.PerformAll | src/HazelcastClient.ts:522-615 | any list of actions takes the object through the run of the machine |
| ClientObjects.Drive | src/ClusterFailoverService.ts:66-72 | a client driven by any list of actions is in the state of the run; every attempt went to the configured cluster at its index modulo their number, so does the current cluster, and without a failover configuration that is the one configured |
| ClientObjects.HazelcastClient.Perform | src/HazelcastClient.ts:522-615 | every action on the object is the step of the machine |
| ProxyRegistry.LeftoversAreLocalMinusRemote | src/HazelcastClient.ts:304-325 | whatever order creations complete in, what is destroyed locally is exactly the local objects the cluster did not report |
| ProxyRegistry.KeysAfterPass | src/HazelcastClient.ts:295-329 | after a pass the keys are those reported plus the ring buffers of newly created topics that were not; everything is an object, and objects known before and reported are the same ones |
| ProxyRegistry.PassMirrorsClusterIff | src/HazelcastClient.ts:295-329 | the registry mirrors the cluster after a pass exactly if every new topic has a ring buffer that was local or reported |
| ProxyRegistry.NewTopicLeavesStray | src/proxy/ProxyManager.ts:293-302 | a pass in which one reported topic leaves the unreported ring buffer of its name, with both keys spelled out |
| ProxyRegistry.SecondPass | src/HazelcastClient.ts:295-329 | a second pass with the same report creates nothing and ends with exactly the reported objects; it changes nothing exactly if the first left no such ring buffer |
| ProxyRegistry.PassOverSuperset | src/HazelcastClient.ts:295-329 | a pass over a registry holding all reported objects keeps those same objects and drops the rest |
| ProxyRegistry.ExistingObjectKept | src/proxy/ProxyManager.ts:103-107 | objects that existed before a pass are untouched by any of its runs, failing ones included |
| ProxyRegistry.ObjectsAreSeparate | src/proxy/ProxyManager.ts:219-291 | in every run of a pass, failing ones included, different keys have different objects, and the object of a new key differs from every object there was |
| ProxyRegistry.FailureFreesTheKey | src/proxy/ProxyManager.ts:126-129 | a creation that fails leaves its key free, so that asking again starts a new one; other keys are untouched |
| ProxyRegistry.NoDeadlock | src/proxy/ProxyManager.ts:293-302 | a pass that is neither finished nor failed has a step it can make, although a topic waits for its ring buffer |
| ProxyRegistry.StepUsesUp | src/proxy/ProxyManager.ts:103-132 | every step that does anything, failures apart, reduces what is left: ring buffers to register, stages of creations, creations to complete |
| ProxyRegistry.PassIsBounded | src/HazelcastClient.ts:295-329 | a pass without failures makes no more effective steps than were left at its beginning |
| ProxyRegistry.PassCanFinish | src/HazelcastClient.ts:295-329 | every pass without failures can be brought to its end from where it is |
| ProxyRegistry.RunsAreSound | src/proxy/ProxyManager.ts:103-132 | the invariant of the creations under way, for every reachable state |
| ProxyRegistry.StepKeepsSound | src/proxy/ProxyManager.ts:103-132 | every step that does not fail keeps that invariant |
| ProxyRegistry.LocalShrinksByCompletion | src/HazelcastClient.ts:311-314 | along every run the shared set has lost exactly the keys whose creations have completed |
| ProxyRegistry.CreateAllMeaning | src/HazelcastClient.ts:311-314 | requesting all reported objects adds exactly their keys and replaces nothing |
| ProxyRegistry.NoStraysIffAccountedFor | src/proxy/ProxyManager.ts:293-302 | when no unreported ring buffer can be left behind |
| ProxyRegistry.SplitKeyInverts | src/proxy/ProxyManager.ts:137-142 | taking a key apart gives the object back exactly if its service name has no separator |
| ProxyRegistry.ProxyManager.GetOrCreateProxy | src/proxy/ProxyManager.ts:103-111 | a known key is left alone, a new one is taken at once |
| ProxyRegistry.ProxyManager.InitializeLocalProxy | src/proxy/ProxyManager.ts:219-302 | a topic asks for its ring buffer first, any other object is there at once |
| ProxyRegistry.ProxyManager.DestroyProxyLocally | src/proxy/ProxyManager.ts:168-177 | removes the key, known or not |
| ProxyRegistry.ProxyManager.RequestCreations | src/HazelcastClient.ts:304-316 | the loop over the report requests every object and remembers the local keys |
| ProxyRegistry.ProxyManager.DestroyAll | src/HazelcastClient.ts:318-325 | the loop over the leftovers removes exactly those keys, in any order |
| PartitionTables.ConvertMeaning | src/PartitionService.ts:132-142 | the domain is the union of the lists, and the last entry to list a partition owns it |
| PartitionTables.OwnerListsPartition | src/PartitionService.ts:132-142 | every owner in the table lists its partition |
| PartitionTables.OrderFreeIffUnconflicted | src/PartitionService.ts:132-142 | the table is the same for every order of entries exactly if no partition is claimed by two owners |
| PartitionTables.DisjointIsOrderFree | src/PartitionService.ts:132-142 | pairwise disjoint lists give the same table in every order |
| PartitionTables.FoldIsFirstNewest | src/PartitionService.ts:80-92 | after a reset, whatever one connection delivers leaves the first delivered event of the highest version |
| PartitionTables.DeliveryFreeIffOneSourceAgrees | src/PartitionService.ts:157-177 | for every list of events, from any connections, all orders and duplications converge to one table exactly if all carried tables come from one connection and those of the highest version agree |
| PartitionTables.TwoConnectionsDiverge | src/PartitionService.ts:166-170 | two events of different connections whose order decides |
| PartitionTables.Convergence | src/PartitionService.ts:157-177 | when versions identify tables, all deliveries converge to the newest |
| PartitionServices.PartitionIdIsStable | src/PartitionService.ts:98-113 | once a count is known, a key hash belongs to one existing partition for the rest of every run, resets included |
| PartitionServices.PartitionIdMeaning | src/PartitionService.ts:112 | the partition is exactly what is left of the magnitude of the hash after taking off that of the count; a hash and its negative share it, and every partition is that of the hash of its own number |
| PartitionServices.CountIsFixed | src/PartitionService.ts:124-130 | a known count is never altered |
| PartitionServices.CountIsFirstOffer | src/PartitionService.ts:124-130 | the count is the first non-zero offer |
| PartitionServices.NoOfferNoCount | src/PartitionService.ts:124-130 | without such an offer there is no count |
| PartitionServices.TableIsLatestAccepted | src/PartitionService.ts:80-92 | along every run the table is empty or the conversion of the latest accepted event, with its connection and version, and versions climb while the connection stays |
| PartitionServices.OwnerAlongRun | src/PartitionService.ts:80-96 | along every run the owner of a partition is that of the last entry listing it in the latest accepted event, and nobody exactly if none lists it; connection and version are those of that event |
| PartitionServices.VersionsIncreaseOnOneConnection | src/PartitionService.ts:166-176 | accepted versions strictly increase over any stretch of one connection |
| PartitionServices.ResetAcceptsAnyVersion | src/PartitionService.ts:73-75 | after a reset the next event that carries a table is accepted whatever its version |
| PartitionServices.ConvertToMap | src/PartitionService.ts:132-142 | the nested loops compute the map characterised by ConvertMeaning |
| PartitionServices.PartitionService.ResetTable | src/PartitionService.ts:73-75 | a fresh empty table; the count stays |
| PartitionServices.PartitionService.HandlePartitionViewEvent | src/PartitionService.ts:80-92 | the step of the machine, on the table object in place |
| PartitionServices.PartitionService.IsToBeApplied | src/PartitionService.ts:157-177 | applied exactly if it carries a table and comes from another connection or with a higher version |
| PartitionServices.PartitionService.GetPartitionOwner | src/PartitionService.ts:94-96 | the owner, or none exactly for partitions not in the table |
| PartitionServices.PartitionService.GetPartitionId | src/PartitionService.ts:98-113 | fails exactly without a count, otherwise the remainder of the magnitudes, written out |
| PartitionServices.PartitionService.CheckAndSetPartitionCount | src/PartitionService.ts:124-130 | true exactly if the offer is the count in force afterwards |
| Framing.TransportRoundTrip | src/network/Connection.ts:201-286 | for every list of messages and every way of cutting their bytes into chunks, the reader hands out exactly those messages, in order and with nothing left over, exactly if no message carries the final flag before its last frame |
| Framing.ChunkingIsIrrelevant | src/network/Connection.ts:461-475 | feeding a stream in any chunks gives what the whole stream gives |
| Framing.DrainConcat | src/network/Connection.ts:214-262 | reading early and going on later is reading once |
| Framing.CutFramesBytes | src/network/Connection.ts:228-262 | cutting the bytes of frames gives exactly those frames |
| Framing.FrameReadsBack | src/protocol/ClientMessage.ts:298-306 | the bytes of a frame are read as that frame, whatever follows |
| Framing.FrameFormat | src/protocol/ClientMessage.ts:298-306 | the bytes of a frame spelled out: length in four and flags in two bytes, lowest first, then the content; the final flag is 8192 |
| Framing.ReadingEndsIff | src/network/Connection.ts:214-285 | for every stream, whatever its length fields: reading on until a read finds no whole frame or throws ends exactly if no length field it comes to is zero or reaches back as far as the bytes do |
| Framing.SaneReadingEnds | src/network/Connection.ts:214-285 | a stream whose length fields are positive is read to its end, and no read of it throws |
| Framing.ShortReachThrows | src/network/Connection.ts:274-284 | after a negative field that reaches back less than a header the next read throws |
| Framing.ReadConsumesIffPositive | src/network/Connection.ts:236-253 | a read consumes bytes exactly if the length field is positive; a zero field leaves the stream as it is, and a field below six gives an empty frame |
| Framing.GroupsAreUnsplit | src/network/Connection.ts:214-226 | every message handed out ends with a final frame and holds no other |
| Framing.MarkFinal | src/protocol/ClientMessage.ts:298-302 | sets the final flag and leaves every other flag and the content |
| Framing.MessagesAreFrames | src/protocol/ClientMessage.ts:292-309 | the bytes of messages are those of their frames with the last ones marked |
| MessageReader.ClientMessageReader.Append | src/network/Connection.ts:209-212 | the stream grows by the chunk |
| MessageReader.ClientMessageReader.ReadFrameSizeAndFlags | src/network/Connection.ts:268-285 | length and flags are those of the stream even if the header spans chunks; fails exactly if there are fewer bytes than a header |
| MessageReader.ClientMessageReader.TakeContent | src/network/Connection.ts:240-253 | for any size known and any count: the content is the slice behind the header, the stream what follows the size, slices taken as Node takes them |
| MessageReader.ClientMessageReader.ReadFrame | src/network/Connection.ts:228-262 | for any stream, also after negative length fields: the read of the value-level reader, with its frame, its remaining bytes and count, or its error; the count stays that of the bytes exactly if the field was not negative |
| MessageReader.ClientMessageReader.Read | src/network/Connection.ts:214-226 | hands out the next complete message, or none exactly if there is none; on streams with positive length fields |
| MessageReader.ClientMessageReader.OnData | src/network/Connection.ts:461-475 | the messages completed by a chunk are those of the whole stream; on streams with positive length fields |
| MessageWriter.WriteTo | src/protocol/ClientMessage.ts:292-309 | lays exactly the bytes of the message into the buffer and touches nothing else |
| MessageWriter.PutFrame | src/protocol/ClientMessage.ts:298-306 | the three writes of a frame are its bytes |
| MessageWriter.MessageLength | src/protocol/ClientMessage.ts:252-264 | the computed length is the number of bytes written |
| MessageWriter.BatchIsMaximal | src/network/Connection.ts:108-120 | a batch fits the threshold or is one message, and one more would not fit; it is empty only for an empty queue |
| MessageWriter.PickBatch | src/network/Connection.ts:108-120 | the loop picks that batch and its length |
| PipelinedWriter.EndToEnd | src/network/Connection.ts:57-174 | whatever the writer was asked and however its bytes are cut, a reader gets exactly the messages sent so far, which are the first ones accepted, in that order |
| PipelinedWriter.NothingDisappears | src/network/Connection.ts:80-173 | in every reachable state the accepted messages are the confirmed, then those under way, then the queued, then the rejected, then the dropped, each once and in order; an open writer has rejected and dropped none, and after a write error nothing is left waiting |
| PipelinedWriter.BatchOutcome | src/network/Connection.ts:144-172 | in every run: if the socket took the batch under way, exactly its callers are confirmed, in order; if not, its callers and those of everything queued are rejected, and nothing is sent, confirmed or rejected in any continuation |
| PipelinedWriter.AcceptedIffOpen | src/network/Connection.ts:80-87 | exactly what is written before the writer is closed is accepted, in order |
| PipelinedWriter.ClosedIff | src/network/Connection.ts:89-93 | a writer is closed exactly once close was called or a write under way has failed |
| PipelinedWriter.NothingSentWhileFull | src/network/Connection.ts:143-157 | once the socket has said that it is full, nothing is sent before it has drained |
| PipelinedWriter.OnlyClosingDrops | src/network/Connection.ts:89-93 | closing an open writer drops exactly the queue; no other step drops anything |
| PipelinedWriter.DroppedForEver | src/network/Connection.ts:89-93 | once closed, the dropped messages stay the same in every continuation, so exactly those queued at closing are never settled, and nothing more is accepted |
| PipelinedWriter.NoLostWakeUp | src/network/Connection.ts:95-101 | with a positive threshold, an open writer with a willing socket and nothing under way has confirmed every message |
| PipelinedWriter.AllCanBeConfirmed | src/network/Connection.ts:57-174 | from every reachable state of an open writer with a positive threshold, if the socket confirms and drains and nothing more is asked, every accepted message is confirmed |
| PipelinedWriter.NextActionWorks | src/network/Connection.ts:95-162 | as long as a message is unconfirmed, what the writer or its socket does next reduces the work left |
| PipelinedWriter.ZeroThresholdSendsNothing | src/network/Connection.ts:108-125 | with a threshold of zero no run ever sends or settles anything |
| PipelinedWriter.RunsAreSound | src/network/Connection.ts:57-174 | both invariants for every threshold and every order of writes, ticks, callbacks, drains and closing |
| PipelinedWriter.WireOnlyGrows | src/network/Connection.ts:127-144 | a step puts at most one batch of the queue behind all earlier bytes, and the batch is one message or within the threshold |
| PipelinedWriter.OneWriteAtATime | src/network/Connection.ts:143-162 | while a socket write is under way no processing is due, so the shared buffer is not refilled |
| PipelinedWriter.StepKeepsControl | src/network/Connection.ts:95-162 | every step keeps the control flags consistent |
| PipelinedWriter.StepPlaces | src/network/Connection.ts:80-173 | every step keeps every message in its place |
| PipelinedWriter.Coalesce | src/network/Connection.ts:135-141 | the loop lays the batch one message behind the other into the buffer |
| PipelinedWriter.Writer.constructor | src/network/Connection.ts:66-78 | an idle writer with a buffer of its own of the size of the threshold |
| PipelinedWriter.Writer.TakeBatch | src/network/Connection.ts:108-128 | splits the queue at the batch the loop picks, with its length |
| PipelinedWriter.Writer.WriteToSocket | src/network/Connection.ts:130-144 | the bytes handed over are those of the batch now under way |
| PipelinedWriter.Writer.ProcessQueue | src/network/Connection.ts:103-144 | the step of the machine, and the bytes handed over are those of the batch under way |
| PipelinedWriter.Writer.Enqueue | src/network/Connection.ts:80-87 | the step of the machine; nothing after an error or closing |
| PipelinedWriter.Writer.TrySchedule | src/network/Connection.ts:95-101 | schedules exactly if nothing is scheduled and the socket is willing |
| PipelinedWriter.Writer.BatchBytes | src/network/Connection.ts:130-141 | the bytes of the batch, from the shared buffer unless one message is too large for it |
| PipelinedWriter.Writer.OnWritten | src/network/Connection.ts:144-173 | the step of the machine for success and for error |
| PipelinedWriter.Writer.OnDrain | src/network/Connection.ts:74-77 | the step of the machine |
| PipelinedWriter.Writer.CloseQueue | src/network/Connection.ts:89-93 | the queue is dropped and the writer closed |
| Fragments.RunMeaning | src/network/Connection.ts:294-314 | whatever fragments arrive, what is delivered and what is open under an id is what the fragments of that id alone amount to |
| Fragments.InterleavingIsIrrelevant | src/network/Connection.ts:294-314 | arrivals that agree on the fragments of one id agree on what is delivered under it |
| Fragments.TransmissionArrives | src/network/Connection.ts:294-314 | after any history and mixed with other messages in any way, a message sent in fragments is delivered once and forgotten, whole exactly if no fragment with frames follows one without any |
| Fragments.DeliveryHasItsBegin | src/network/Connection.ts:301-312 | a message is delivered exactly by an ending fragment of an open message, as what arrived since its begin; fragments without a begin are dropped |
| Fragments.OpenSinceMeaning | src/network/Connection.ts:298-312 | where the open message began: at the last begin with no end after it |
| Fragments.JoinedIsWholeIff | src/protocol/ClientMessage.ts:270-281 | when merging keeps every frame |
| Fragments.EmptyFragmentCutsOff | src/protocol/ClientMessage.ts:270-281 | one fragment without frames, and what is merged after it is not delivered |
| Fragments.FragmentedClientMessageHandler.HandleFragmentedMessage | src/network/Connection.ts:294-314 | the step of the machine, and the message given to the callback |
| FragmentTransport.FragmentsOverTheWire | src/network/Connection.ts:461-475 | whatever whole messages and fragments are written and however their bytes are cut, the callback gets exactly the whole messages and the reassembled ones, in the order in which they became complete; a message whose fragments were all sent is reassembled once, and with all frames exactly if no fragment with frames follows one without any |
| FragmentTransport.PieceArrives | src/network/Connection.ts:298-312 | among whatever other messages and fragments: behind the pieces before it, each piece of a message cut by a sender, told by the flag values 0x8000, 0 and 0x4000 and the eight bytes of the id, gives the callback nothing, and the last one exactly that message |
| FragmentTransport.PiecesArrive | src/network/Connection.ts:298-312 | alone, the pieces of a message are handed out as exactly that message |
| FragmentTransport.PiecesOverTheWire | src/network/Connection.ts:461-475 | a message cut into two or more pieces, written and cut into chunks in any way, is handed out once and whole |
| FragmentTransport.WholeArrives | src/network/Connection.ts:467-468 | a message whose first frame has flags from 0xC000 on is handed out as it is |
| FragmentTransport.FragmentsWithId | src/protocol/ClientMessage.ts:266-268 | the fragments kept under an id are those of the messages with these eight bytes in front |
| FragmentTransport.ReceiveAllMeaning | src/network/Connection.ts:466-473 | dispatching feeds exactly the fragments to the handler, and the callback gets in order each whole message and, for each fragment that ends an open message, what arrived since its begin |
| FragmentTransport.MarkingKeepsFragment | src/protocol/ClientMessage.ts:298-302 | the final flag set by the writer changes neither whether a message is whole nor the id and flags of a fragment |
| FragmentTransport.Dispatch | src/network/Connection.ts:466-473 | the loop over the messages of a chunk is that dispatch, on the handler object in place |
| FixSizedCodec.FieldsReadBack | src/codec/builtin/FixSizedTypesCodec.ts:30-176 | for every list of fields written at their chained offsets, each reads back as written, whatever the buffer held |
| FixSizedCodec.FieldRoundTrip | src/codec/builtin/FixSizedTypesCodec.ts:30-176 | each kind of field decodes to what was encoded, whatever follows it |
| Bytes.Int32IsLittle | src/codec/builtin/FixSizedTypesCodec.ts:30-32 | a 32-bit integer is written lowest byte first, a negative one as its complement |
| FixSizedCodec.LongRoundTrip | src/codec/builtin/FixSizedTypesCodec.ts:80-93 | a 64-bit integer survives its two halves |
| FixSizedCodec.LongIsLittle | src/codec/builtin/FixSizedTypesCodec.ts:80-87 | a 64-bit integer is written lowest byte first |
| FixSizedCodec.DecodedNumber | src/codec/builtin/FixSizedTypesCodec.ts:133-137 | eight bytes are read as the number they stand for, lowest first, from 2^63 on as negative |
| FixSizedCodec.UuidBytes | src/codec/builtin/FixSizedTypesCodec.ts:167-176 | a UUID is missing exactly if its first byte is 1; its halves are in the bytes behind it |
| FixSizedCodec.NumberRoundTrip | src/codec/builtin/FixSizedTypesCodec.ts:108-137 | a non-negative number below 2^63 reads back, and any larger one as 2^63 - 1 |
| FrameLayout.RegionsTile | src/codec/SemaphoreAcquireCodec.ts:32-37 | chained offsets tile a frame body: every byte belongs to exactly one field |
| FrameLayout.PieceSurvives | src/codec/SemaphoreAcquireCodec.ts:46-51 | what is written for a field is still there after all later writes |
| FrameLayout.HeaderWriteKeepsRegion | src/protocol/ClientMessage.ts:195-230 | header writes are invisible to every field |
| MessageCodecs.HeaderReadsBack | src/protocol/ClientMessage.ts:195-230 | message type and partition id read back |
| MessageCodecs.WrittenFrameCarries | src/codec/SemaphoreAcquireCodec.ts:46-54 | a frame written field by field and then given its header reads back in every field and in the header |
| MessageCodecs.PutUuid | src/codec/builtin/FixSizedTypesCodec.ts:155-165 | the writes of a UUID are its encoding; a missing one writes its flag only |
| SemaphoreAcquireCodec.OffsetsAreChained | src/codec/SemaphoreAcquireCodec.ts:32-37 | the offset constants are the chained offsets |
| SemaphoreAcquireCodec.EncodeRequest | src/codec/SemaphoreAcquireCodec.ts:42-54 | all five values, the message type and the partition id read back from the frame, each at its place in numbers |
| ClientAuthenticationCodec.EncodeRequest | src/codec/ClientAuthenticationCodec.ts:57-66 | both values of the first frame, the message type and the partition id read back, each at its place in numbers |
| ClientAuthenticationCodec.ResponseOffsetsAreChained | src/codec/ClientAuthenticationCodec.ts:36-41 | the response offsets are chained |
| ClientAuthenticationCodec.ResponseRoundTrip | src/codec/ClientAuthenticationCodec.ts:78-87 | a response laid out by that chain decodes to its values |
| ClientAuthenticationCodec.ResponseBytes | src/codec/ClientAuthenticationCodec.ts:78-87 | the bytes in numbers from which each value of a response is taken |
| ConfigPatterns.Matches | src/config/ConfigPatternMatcher.ts:29-49 | no match exactly if nothing matches, an error exactly if two positions tie for the longest match (naming the last two), otherwise the one longest match |
| ConfigPatterns.OrderDoesNotMatter | src/config/ConfigPatternMatcher.ts:29-49 | the kind of answer and the pattern chosen are the same for every order of patterns |
| ConfigPatterns.TiedIffAmbiguous | src/config/ConfigPatternMatcher.ts:44-47 | ambiguity is exactly a tie |
| ConfigPatterns.MatchingPoint | src/config/ConfigPatternMatcher.ts:51-65 | non-negative exactly for a match, and then the length of the pattern in code units without the star |
| ConfigPatterns.FillsIffLongMatch | src/config/ConfigPatternMatcher.ts:51-65 | the items that replace the star by a string are exactly the matched items long enough for the two parts not to overlap |
| ConfigPatterns.OverlapMatches | src/config/ConfigPatternMatcher.ts:51-65 | an item matched although no replacement of the star gives it |
| BuildInfo.UnknownIffUnreadable | src/BuildInfo.ts:28-45 | the unknown version is answered exactly for no string and for strings outside the grammar |
| BuildInfo.CodeOfEveryReading | src/BuildInfo.ts:28-45 | every way of reading a string by the grammar, whose letters are spelled out, gives the computed code: 10000 times major, 100 times minor and patch |
| BuildInfo.ValueOfConcat | src/BuildInfo.ts:36-43 | numbers are decimal: a digit stands for itself, and digits behind a number multiply it by ten each |
| BuildInfo.ReadingsAgree | src/BuildInfo.ts:26 | although the suffix is ambiguous, major, minor and patch are not |
| BuildInfo.SuffixIsAmbiguous | src/BuildInfo.ts:26 | a snapshot suffix reads equally well as a word |
| BuildInfo.PrintedVersion | src/BuildInfo.ts:28-49 | printing a version with any suffix and reading it back gives its code |
| BuildInfo.UniqueIffFirstHundred | src/BuildInfo.ts:47-49 | a version shares its code with no other version exactly if it is 0.0.p with p below 100 |
| BuildInfo.ToldApartIffCodable | src/BuildInfo.ts:47-49 | the code tells a version from every version with two-digit minor and patch exactly if its own minor and patch have two digits |
| BuildInfo.DecodeInvertsIffCodable | src/BuildInfo.ts:47-49 | splitting the code into its decimal parts gives the version back exactly if minor and patch have at most two digits |
| BuildInfo.CodesOrderVersions | src/BuildInfo.ts:47-49 | on such versions codes order as versions do |
| BuildInfo.UncodableCollides | src/BuildInfo.ts:47-49 | any other version shares its code with such a one |
| Benchmark.NeverTooMany | benchmark/BenchmarkRunner.js:30-42 | in every completion order the counter stays within the total rounded up, no more operations are in flight than chains, and every started operation is completed, failed or in flight |
| Benchmark.ConstantConcurrency | benchmark/BenchmarkRunner.js:35-42 | until the total is reached every chain past its no-op that has not failed has an operation in flight |
| Benchmark.FailureEndsChain | benchmark/BenchmarkRunner.js:36-42 | a chain whose operation fails is over in every continuation, and nothing of the others changes |
| Benchmark.ExactCount | benchmark/BenchmarkRunner.js:44-58 | a run without failures ends with the total rounded up, all completed, exactly if there is a chain or nothing to do |
| Benchmark.RunLength | benchmark/BenchmarkRunner.js:36-58 | every run ends: the number of completions is bounded, and exact without failures |
| Benchmark.EveryStepCounts | benchmark/BenchmarkRunner.js:36-42 | steps made and work left always add up to the same |
| Benchmark.RunsAreBounded | benchmark/BenchmarkRunner.js:36-42 | the invariant behind these, for every reachable state |
| Benchmark.BenchmarkRunner.constructor | benchmark/BenchmarkRunner.js:22-27 | the initial state of the scheduler |
| Benchmark.BenchmarkRunner.ChainNext | benchmark/BenchmarkRunner.js:36-42 | a resolved chain makes the step of the scheduler, and goes on exactly while the total is not reached |
| Benchmark.BenchmarkRunner.ChainFails | benchmark/BenchmarkRunner.js:36-42 | a failed operation ends its chain, as in the scheduler |
| Benchmark.BenchmarkRunner.Advance | benchmark/BenchmarkRunner.js:36-42 | whichever chain settles and however, the runner makes that step of the scheduler |
| Benchmark.BenchmarkRunner.RunAll | benchmark/BenchmarkRunner.js:44-58 | whichever chain settles next and however, the runner goes through a run of the scheduler to its end; it answers a count exactly if no operation failed, and the count is the total rounded up |
| Releases.SelectMeaning | util.py:283-301 | the selection holds only given releases, each the last one of maximal patch in its group; every (major, minor) group is in it once, ordered by the first release of its major version in the list and then by its own first release |
| Releases.MajorsInOrder | util.py:288-290 | the dictionary of majors is in the order of their first releases in the list |
| Releases.MinorsInOrder | util.py:290-291 | the minors of a major are in the order of their first releases in the list |
| Releases.GetLatestPatchReleases | util.py:283-301 | the loops over nested dictionaries compute the version texts of that selection, in order |
| Releases.ReadOut | util.py:295-301 | reading the dictionaries out gives the selection in order |
| Releases.SelectIsIdempotent | util.py:283-301 | selecting from a selection changes nothing |
| Releases.FilterReleases | util.py:164-175 | the filter loop keeps, in order, exactly the releases that are stable if that is asked and of every set of major versions asked for |
| Releases.FilterAndSelectCommute | util.py:141-146 | filtering by major version before or after selecting is the same |
| Releases.MinorsOneMore | util.py:288-293 | one release updates the dictionary of its major version rightly, placeholder included |

## Left out

- ClientFailover.RunsAreAccounted: `tryCount` is a natural number here; the configuration also accepts a fraction, which the code treats as rounded up, and a number beyond 2^53, where the index would stop being exact.
- ClientObjects.HazelcastClient.constructor: at least one candidate cluster is required, as the failover configuration builder enforces.
- ProxyRegistry.KeysAfterPass: speaks of passes that start from completed objects and in which no other call creates or destroys objects meanwhile; side effects of destroying an object locally are not modelled.
- PartitionServices.PartitionService.GetPartitionId: takes the hash of the key as given; serialisation and hashing of keys are not modelled.
- MessageReader.ClientMessageReader.OnData: speaks of streams whose length fields are positive; the messages handed out behind a field that is not, on streams on which reading still ends, are not modelled.
- MessageReader.ClientMessageReader.Append: what joining a further chunk does after a negative length field has spoilt the byte count is not modelled. Chunks are values; that slices share memory with the chunks they come from is not captured.
- MessageWriter.WriteTo: messages are sequences of frames; the linked list and its cached length are not captured.
- Framing.TransportRoundTrip: frames are short enough for their 32-bit length field; Node refuses to write others.
- Fragments.RunMeaning: the chain of frames is a value that records whether its end is still reachable from its start.
- FragmentTransport.FragmentsOverTheWire: a message that is not whole has a first frame of at least eight bytes, as reading its id requires; ids are exact, and rounding of ids beyond 2^53, by which two of them could be taken for one, is not captured.
- FixSizedCodec.NumberRoundTrip: numbers are exact integers; double rounding above 2^53 is not captured.
- MessageCodecs.PutUuid: values are within the range of their field; Node refuses others.
- ProxyRegistry.SplitKeyInverts: keys are sequences of characters rather than 16-bit code units, which makes no difference to joining and splitting at a separator.
- BuildInfo.CodeOfEveryReading: numbers are exact; very long digit strings would be rounded by the source.
- Benchmark.ExactCount: the total is a real number; the rounding of a tenth of it in double arithmetic and the timing are not captured.
- Releases.FilterReleases: releases are given; downloading and parsing them, and how a version string becomes numbers, are not modelled.
- The other generated codecs and the frames behind the first one (strings, lists, nested structures): the same layout argument applies to each.
- Address providers, cloud discovery, load balancers, statistics, CP sessions, near caches, the SQL and query API, serialisation, and the invocation service: not modelled.
- Lifecycle events about connections (CONNECTED, DISCONNECTED, CHANGED_CLUSTER), getters and wiring of the client: not modelled.
- What a caller sees of a call refused after an error or after closing the writer: the call is not accepted, and the rejection or exception is not modelled.
- The direct writer, heartbeats and connection management: not modelled.
- Logging and listeners appear only as points where other steps may come in between.
