/**
  Data model of the MSK record handler: the split being read, the records the
  broker delivers, the operations issued on the consumer, and the trace a split
  read leaves behind.
 */
module MskTypes {

  /** Reading stops once this many polls have come back empty over the whole read. */
  const MaxEmptyResultFoundCount: nat := 3

  /** A field's typed value. The handler never inspects it, so the model carries it as an opaque token. */
  datatype Value = Opaque(token: string)

  /** One named field of a decoded record. */
  datatype Field = Field(name: string, value: Value)

  /** A decoded broker record: its offset in the partition and its fields, in order. */
  datatype Record = Record(offset: int, fields: seq<Field>)

  /** What one call to `poll` produces: a batch of records, or a broker/decoder exception. */
  datatype PollResult = Batch(records: seq<Record>) | Fails

  /** The typed split parameters computed by the planner. */
  datatype SplitParam = SplitParam(topic: string, partition: int, startOffset: int, endOffset: int)

  datatype TopicPartition = TopicPartition(topic: string, partition: int)

  /** The calls made on the consumer, in the order they are issued. */
  datatype ConsumerOp =
    | Assign(partitions: seq<TopicPartition>)
    | Seek(tp: TopicPartition, offset: int)
    | EndOffsets(partitions: seq<TopicPartition>)
    | Poll
    | Close

  /**
    How a split read ended. `Unfinished` is not a way the handler returns: it
    marks a trace cut short because the scripted environment ran out.
   */
  datatype Outcome = EmptyLog | Cancelled | Exhausted | EndReached | Failed | Unfinished

  /**
    Everything observable about a split read: consumer operations, the records
    handed to the projector, the rows the sink kept, the number of polls, the
    empty-poll counter and the outcome.
   */
  datatype Trace = Trace(
    ops: seq<ConsumerOp>,
    projected: seq<Record>,
    written: seq<Record>,
    polls: nat,
    emptyPolls: nat,
    outcome: Outcome)

  function PartitionOf(sp: SplitParam): TopicPartition
  {
    TopicPartition(sp.topic, sp.partition)
  }

  /** A record at or past the last offset of the split, `endOffset - 1`. */
  predicate IsBoundary(rec: Record, endOffset: int)
  {
    rec.offset >= endOffset - 1
  }

  predicate IsEmptyPoll(p: PollResult)
  {
    p.Batch? && |p.records| == 0
  }

  function RecordsOf(p: PollResult): seq<Record>
  {
    match p
    case Batch(records) => records
    case Fails => []
  }
}
