# MSK record handler: a Dafny model of the split reader

This project models the read path of the Athena MSK (Kafka) connector's
`AmazonMskRecordHandler`. One split names a topic, a partition and an offset
range `[startOffset, endOffset)`. Reading it involves three steps:

- `readWithConstraint` assigns a group-less consumer to that one partition,
  seeks to `startOffset`, and asks the broker for the partition's end offset.
  It returns at once when that offset is 0, and otherwise runs `consume`.
  The try-with-resources block closes the consumer on the way out.
- `consume` loops. Each iteration first asks the query-status checker whether
  the query is still running, then polls.
  - It counts empty batches. On the third empty batch of the read it closes
    the consumer and stops.
  - Otherwise it hands each record of the batch, in arrival order, to
    `execute`.
  - It closes the consumer and stops right after projecting the first record
    whose offset is at least `endOffset - 1`.
- `execute` calls the sink's `writeRows` with a callback. The callback offers
  the record's fields to the row builder (`Block.offerValue`) in order. It
  reports 0 rows at the first field the builder rejects, and 1 row when every
  field is accepted.

The environment is a parameter of every operation:
- the answer of `endOffsets` is an integer;
- the status checker's answers are a sequence of booleans, one per iteration;
- the broker's poll results are a sequence of batches, or `Fails` for a poll
  that throws;
- the row builder's `offerValue` is a predicate.

A read returns a `Trace`. It holds the consumer operations issued, the records
handed to the callback, the rows the sink kept, the poll count, the empty-poll
counter and the way the read ended. If the environment has no answer for the
next iteration (no status answer left, or a "running" answer with no poll
result left), the trace is `Unfinished`. This is a horizon of the model, not a
way the handler returns. A "not running" answer cancels the read whatever the
broker still holds, because the status check comes before the poll.

The project has these layers:
- `msk_types.dfy` holds the data model.
- `projector.dfy` holds the row callback and the sink fold.
- `split_reader.dfy` holds the read as pure functions, together with the
  reference definitions it is measured against. `Step` is one loop iteration,
  and `Consume` repeats it until an iteration stops the read.
- `split_reader_proofs.dfy` holds the loop inductions.
- `read_split_properties.dfy` holds the guarantees of a whole read.
- `record_handler.dfy` restates the three Java methods as loops (`while true`,
  the per-batch loop, and the field loop with early return). Each is proved
  equal to the functional model.
- `scenarios.dfy` holds concrete reads.

Two behaviours of the code are worth stating plainly, because a reader might
expect otherwise:

- **Double close.** The code calls `close()` explicitly on the empty-log,
  cancelled, exhausted and end-offset paths (lines 103, 136, 155, 168), and
  the try-with-resources block (line 87) then closes the consumer again. The
  model records both calls, so these paths end with two `Close` operations. A
  poll that throws leaves the loop without the explicit call and records one.
- **Cumulative empty-poll counter.** The counter (lines 128, 146-148) is never
  reset by a non-empty batch, so the read stops on the third empty poll
  overall, not on the third empty poll in a row.
  `Scenarios.EmptyCounterIsCumulative` shows this on an
  empty / non-empty / empty / empty sequence.

## Model

In the table below, every source path is
`athena-msk/src/main/java/com/amazonaws/athena/connectors/msk/AmazonMskRecordHandler.java`.

| member | source | states |
|---|---|---|
| Projector.Project | athena-msk/src/main/java/com/amazonaws/athena/connectors/msk/AmazonMskRecordHandler.java:192-201 | the callback reports 0 or 1 rows; it makes at least one offer for a record with fields and never more offers than the record has fields (its partners are the three lemmas below) |
| Projector.WriteRow | athena-msk/src/main/java/com/amazonaws/athena/connectors/msk/AmazonMskRecordHandler.java:185-202 | one `writeRows` call either leaves the sink unchanged or adds the record as its next row, and it adds it exactly when the callback reports 1 for row number `|written|` |
| Projector.Sink | athena-msk/src/main/java/com/amazonaws/athena/connectors/msk/AmazonMskRecordHandler.java:159-163 | the sink fed the projected records one `writeRows` call at a time holds no more rows than records fed to it |
| Projector.ProjectRowIffAccepted | athena-msk/src/main/java/com/amazonaws/athena/connectors/msk/AmazonMskRecordHandler.java:192-201 | the callback reports one row exactly when the row builder accepts every field of the record, and 0 rows when it rejects any |
| Projector.ProjectOffersInOrder | athena-msk/src/main/java/com/amazonaws/athena/connectors/msk/AmazonMskRecordHandler.java:194-195 | the callback's offers are the record's fields in order, each with the field's name and value and the same row number; when it reports a row, every field was offered |
| Projector.ProjectStopsAtRejection | athena-msk/src/main/java/com/amazonaws/athena/connectors/msk/AmazonMskRecordHandler.java:195-198 | the callback gives up at the first rejected field: every offer before the last one was accepted, and a report of 0 means the last offer was rejected |
| SplitReader.Drain | athena-msk/src/main/java/com/amazonaws/athena/connectors/msk/AmazonMskRecordHandler.java:159-171 | the loop over one batch never polls and never touches the counter; it either leaves the outcome as it was or ends the read at the end offset, and it only appends to the records handed over and to the consumer operations |
| SplitReader.Step | athena-msk/src/main/java/com/amazonaws/athena/connectors/msk/AmazonMskRecordHandler.java:131-171 | one iteration consumes one status answer and at most one poll result: it polls exactly when the answer is "running", goes round again only after a poll, only appends consumer operations, and otherwise stops as cancelled, failed, exhausted or end-reached |
| SplitReader.Consume | athena-msk/src/main/java/com/amazonaws/athena/connectors/msk/AmazonMskRecordHandler.java:121-173 | the loop only moves forward through the environment, never polls past the status answers or the broker results it was given, only appends consumer operations, and never reports an empty log |
| SplitReader.ReadSplit | athena-msk/src/main/java/com/amazonaws/athena/connectors/msk/AmazonMskRecordHandler.java:80-109 | a read reports an empty log exactly when the end offset is 0, starts with assign, seek and the end-offset query, and never polls more often than the environment answered |
| RecordHandler.OfferFields | athena-msk/src/main/java/com/amazonaws/athena/connectors/msk/AmazonMskRecordHandler.java:192-201 | the field loop with its early `return 0` makes exactly the offers and reports exactly the row count of the callback's definition; it reports 1 iff every field is accepted |
| RecordHandler.Execute | athena-msk/src/main/java/com/amazonaws/athena/connectors/msk/AmazonMskRecordHandler.java:185-202 | the record becomes the sink's next row exactly when the callback reports 1, i.e. when every field is accepted for that row number; otherwise the sink is unchanged |
| RecordHandler.Consume | athena-msk/src/main/java/com/amazonaws/athena/connectors/msk/AmazonMskRecordHandler.java:121-173 | the `while (true)` loop with the status check, poll, empty-poll counter and per-record end-offset exit yields exactly the trace of the functional loop, from any fresh start |
| RecordHandler.ReadWithConstraint | athena-msk/src/main/java/com/amazonaws/athena/connectors/msk/AmazonMskRecordHandler.java:80-109 | assign, seek, end-offset query, the empty-log return and the call to `consume` yield exactly the trace of the functional read |
| SplitReaderProofs.DrainOutcome | athena-msk/src/main/java/com/amazonaws/athena/connectors/msk/AmazonMskRecordHandler.java:159-171 | the loop over one batch leaves the read going with no consumer operation iff no record of the batch reaches `endOffset - 1`; otherwise it stops as end-reached with one close |
| SplitReaderProofs.DrainProjected | athena-msk/src/main/java/com/amazonaws/athena/connectors/msk/AmazonMskRecordHandler.java:159-166 | one batch hands the callback its records in order up to and including the first one at or past `endOffset - 1` |
| SplitReaderProofs.DrainWritten | athena-msk/src/main/java/com/amazonaws/athena/connectors/msk/AmazonMskRecordHandler.java:162 | over one batch the sink's rows stay the fold of `writeRows` over the records handed to the callback |
| SplitReaderProofs.ConsumeEnv | athena-msk/src/main/java/com/amazonaws/athena/connectors/msk/AmazonMskRecordHandler.java:131-142 | every poll of the loop was preceded by a "running" answer; a cancelled loop stops at a "not running" answer; the loop fails iff its last poll threw; it never reports an empty log |
| SplitReaderProofs.StepEnv | athena-msk/src/main/java/com/amazonaws/athena/connectors/msk/AmazonMskRecordHandler.java:131-142 | one iteration stops as cancelled exactly when the status checker answers "not running", and then without polling; otherwise it polls once, and it fails exactly when that poll throws |
| SplitReaderProofs.StepExhausted | athena-msk/src/main/java/com/amazonaws/athena/connectors/msk/AmazonMskRecordHandler.java:145-157 | one iteration stops as exhausted exactly when its poll was empty and brought the counter to 3; the counter never passes 3 |
| SplitReaderProofs.StepProjected | athena-msk/src/main/java/com/amazonaws/athena/connectors/msk/AmazonMskRecordHandler.java:159-171 | one iteration hands the callback the batch's records up to and including the first one at or past `endOffset - 1`, and stops as end-reached exactly when there is such a record |
| SplitReaderProofs.StepOps | athena-msk/src/main/java/com/amazonaws/athena/connectors/msk/AmazonMskRecordHandler.java:131-171 | one iteration issues a poll when it gets past the status check, then an explicit close exactly when it stops the read as cancelled, exhausted or end-reached |
| SplitReaderProofs.ConsumeCounts | athena-msk/src/main/java/com/amazonaws/athena/connectors/msk/AmazonMskRecordHandler.java:128-148 | the counter equals the number of empty polls of the whole loop so far; a non-empty batch does not reset it |
| SplitReaderProofs.ConsumeExhausted | athena-msk/src/main/java/com/amazonaws/athena/connectors/msk/AmazonMskRecordHandler.java:153-157 | the counter never exceeds 3, and the loop is exhausted iff it reaches 3, which happens on an empty poll |
| SplitReaderProofs.ConsumeProjected | athena-msk/src/main/java/com/amazonaws/athena/connectors/msk/AmazonMskRecordHandler.java:159-171 | the records handed to the callback are all records polled, in order, cut after the first at or past `endOffset - 1`; the loop is end-reached iff such a record was handed over |
| SplitReaderProofs.ConsumeEndReached | athena-msk/src/main/java/com/amazonaws/athena/connectors/msk/AmazonMskRecordHandler.java:159-171 | a loop that reaches the end offset polled no boundary record before its last poll: the `break` ends polling at the batch holding the first one |
| SplitReaderProofs.ConsumeWritten | athena-msk/src/main/java/com/amazonaws/athena/connectors/msk/AmazonMskRecordHandler.java:159-163 | across the loop the sink's rows stay the fold of `writeRows` over the records handed to the callback |
| SplitReaderProofs.ConsumeOps | athena-msk/src/main/java/com/amazonaws/athena/connectors/msk/AmazonMskRecordHandler.java:130-171 | the loop issues one poll per iteration that passed the status check, then one explicit close on a cancelled, exhausted or end-reached exit, and nothing after a poll that throws |
| ReadSplitProperties.ReadSplitOps | athena-msk/src/main/java/com/amazonaws/athena/connectors/msk/AmazonMskRecordHandler.java:87-108 | a read's consumer operations are exactly assign, seek, end-offset query, one poll per iteration, then the closes of the way out: two on an empty log and on the controlled stops, one when a poll throws |
| ReadSplitProperties.AssignAndSeekFirst | athena-msk/src/main/java/com/amazonaws/athena/connectors/msk/AmazonMskRecordHandler.java:89-100 | before any poll the consumer is assigned exactly the split's one partition, seeked to the split's start offset, and asked for that partition's end offset |
| ReadSplitProperties.ClosedOnEveryExit | athena-msk/src/main/java/com/amazonaws/athena/connectors/msk/AmazonMskRecordHandler.java:87-108 | every way out of a read ends with a close, the controlled ones with two; after the first close nothing but a close is issued; a read still going has not closed |
| ReadSplitProperties.EmptyLogReadsNothing | athena-msk/src/main/java/com/amazonaws/athena/connectors/msk/AmazonMskRecordHandler.java:99-105 | the read reports an empty log iff the end offset is 0, and then it has polled nothing, projected nothing, written no row and closed after the end-offset query |
| ReadSplitProperties.StatusCheckedBeforeEveryPoll | athena-msk/src/main/java/com/amazonaws/athena/connectors/msk/AmazonMskRecordHandler.java:131-142 | every poll was preceded by a "running" answer, and a cancelled read stopped at a "not running" answer before polling again |
| ReadSplitProperties.CancelledBeforeFirstPoll | athena-msk/src/main/java/com/amazonaws/athena/connectors/msk/AmazonMskRecordHandler.java:134-138 | a query already stopped at the first check is cancelled with no poll, no record and no row, and is closed twice after the setup |
| ReadSplitProperties.EmptyPollsBounded | athena-msk/src/main/java/com/amazonaws/athena/connectors/msk/AmazonMskRecordHandler.java:145-157 | the counter is the number of empty polls of the whole read, never exceeds 3, and the read is exhausted iff it reaches 3, on an empty poll |
| ReadSplitProperties.StopsAtThreshold | athena-msk/src/main/java/com/amazonaws/athena/connectors/msk/AmazonMskRecordHandler.java:153-157 | the count of empty polls was below 3 after every poll before the last, so the read stops at the first poll that reaches the threshold |
| ReadSplitProperties.ProjectsInArrivalOrder | athena-msk/src/main/java/com/amazonaws/athena/connectors/msk/AmazonMskRecordHandler.java:159-171 | the records projected are a prefix of all records polled, in arrival order: exactly those up to and including the first one at or past `endOffset - 1` |
| ReadSplitProperties.NothingPolledAfterBoundary | athena-msk/src/main/java/com/amazonaws/athena/connectors/msk/AmazonMskRecordHandler.java:164-170 | a read that reaches the end offset stopped polling at the batch holding the first record at or past `endOffset - 1`: no earlier batch held one, the last batch polled did, and nothing was polled after it |
| ReadSplitProperties.BoundaryRecordIsLast | athena-msk/src/main/java/com/amazonaws/athena/connectors/msk/AmazonMskRecordHandler.java:162-170 | every projected record but the last lies before `endOffset - 1`; the read stops at the end offset iff the last projected record is at or past it, so that record is itself projected |
| ReadSplitProperties.RowsFollowProjection | athena-msk/src/main/java/com/amazonaws/athena/connectors/msk/AmazonMskRecordHandler.java:159-163 | the sink's rows are the fold of `writeRows` over exactly the projected records, in order |
| ReadSplitProperties.SinkKeepsProjectedRecords | athena-msk/src/main/java/com/amazonaws/athena/connectors/msk/AmazonMskRecordHandler.java:192-201 | the sink holds no more rows than records projected, every row is a projected record, and with a builder that accepts everything every projected record becomes a row |
| ReadSplitProperties.ConsecutiveLogReadsExactRange | athena-msk/src/main/java/com/amazonaws/athena/connectors/msk/AmazonMskRecordHandler.java:159-171 | on a log with consecutive offsets from the start offset, a read that reaches the end projects exactly the offsets `startOffset` to `endOffset - 1`, in order |
| ReadSplitProperties.CoveringLogReachesEnd | athena-msk/src/main/java/com/amazonaws/athena/connectors/msk/AmazonMskRecordHandler.java:131-171 | a read of a non-empty log whose query keeps running, whose polls never throw, with fewer than 3 empty polls, and whose batches deliver consecutive offsets from the start offset up to at least `endOffset - 1`, stops at the end offset |
| ReadSplitProperties.CoveringLogReadsExactRange | athena-msk/src/main/java/com/amazonaws/athena/connectors/msk/AmazonMskRecordHandler.java:159-171 | over such a covering log the read stops at the end offset having projected exactly the offsets `startOffset` to `endOffset - 1`, in order |
| Scenarios.EndOffsetIsExclusive | athena-msk/src/main/java/com/amazonaws/athena/connectors/msk/AmazonMskRecordHandler.java:159-171 | for the split [10, 13) over offsets 10 to 14 in one batch, rows are written for 10, 11 and 12 only, and the consumer is closed after one poll |
| Scenarios.EmptyCounterIsCumulative | athena-msk/src/main/java/com/amazonaws/athena/connectors/msk/AmazonMskRecordHandler.java:128-157 | empty, non-empty, empty, empty polls exhaust the read after the fourth poll: a non-empty batch does not reset the counter |
| Scenarios.RejectedRecordLeavesNoRow | athena-msk/src/main/java/com/amazonaws/athena/connectors/msk/AmazonMskRecordHandler.java:192-201 | a record with a rejected field is projected but leaves no row, and the next record is still read and written |

## Left out

- Construction of the handler (lines 56-70) is left out. It is AWS client plumbing with no logic of its own.
- Building the split parameters from the split's properties is left out. The model takes a `SplitParam` value. `AmazonMskUtils.createSplitParam` is not part of this model.
- Creating the consumer from the schema is left out. `AmazonMskUtils.getKafkaConsumer` is not part of this model.
- The `printf` logging is left out. It does not affect behaviour.
- The one-second poll timeout is left out. Time is not modelled, so a poll that times out is an empty batch.
- The record decoder is left out. A decoding error is one of the poll exceptions (`Fails`).
- Value types are left out. Field values are opaque, because the handler never inspects them.
- Block spilling is left out. `BlockSpiller` is not part of this model. The row number passed to the callback is the number of rows written so far, and `offerValue` is a predicate parameter with no side effects.
- Exceptions other than a throwing poll are left out. These include a missing partition in the `endOffsets` map, an exception from `offerValue` or `writeRows`, and an exception from `close()`.
- Offsets are unbounded integers, not Java `long`. `endOffset - 1` cannot overflow for offsets a broker hands out.
- A read that never ends is not modelled. With non-empty batches that stay below `endOffset - 1` and a query that keeps running, the handler polls forever. The model stops when the environment has no answer for the next iteration and reports `Unfinished`. The trace properties still hold up to that point.
- Determinism is not stated as a lemma. A second read of the same split in the same environment gives the same trace because the model is a function.
- ReadSplitProperties.StatusCheckedBeforeEveryPoll: states only that cancellation implies a "not running" answer, not the converse. A "not running" answer after a read has already stopped at the end offset or on exhaustion is never asked for.
