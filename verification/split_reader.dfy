/**
  The split reader as a pure function of its environment. The broker is a
  script of poll results, the query-status checker is a sequence of answers
  (one per loop iteration), and the sink's admission predicate is a parameter.
 */
module SplitReader {
  import opened MskTypes
  import opened Projector

  /** Assign the split's one partition, seek to the start offset, ask for the end offset. */
  function Setup(sp: SplitParam): (ops: seq<ConsumerOp>)
    ensures |ops| == 3
  {
    var tp := PartitionOf(sp);
    [Assign([tp]), Seek(tp, sp.startOffset), EndOffsets([tp])]
  }

  /** `n` polls in a row. */
  function Polls(n: nat): seq<ConsumerOp>
  {
    if n == 0 then [] else Polls(n - 1) + [Poll]
  }

  /** The trace the loop starts from, right after the end-offset query. */
  function Start(sp: SplitParam): Trace
  {
    Trace(Setup(sp), [], [], 0, 0, Unfinished)
  }

  /**
    The inner `for` loop over one batch: project each record, then stop the
    whole read (closing the consumer) right after a record at or past the
    last offset of the split.
   */
  function Drain(sp: SplitParam, batch: seq<Record>, accept: Accept, t: Trace): (r: Trace)
    ensures r.polls == t.polls && r.emptyPolls == t.emptyPolls
    ensures r.outcome == t.outcome || r.outcome == EndReached
    ensures t.projected <= r.projected && t.ops <= r.ops
    decreases |batch|
  {
    if |batch| == 0 then t
    else
      var rec := batch[0];
      var t1 := t.(projected := t.projected + [rec], written := WriteRow(t.written, rec, accept));
      if IsBoundary(rec, sp.endOffset) then t1.(ops := t1.ops + [Close], outcome := EndReached)
      else Drain(sp, batch[1..], accept, t1)
  }

  /**
    The environment answers iteration `n` of `consume`: the status checker has
    an answer for it, and when that answer is "running" the broker has a poll
    result for it.
   */
  predicate Answers(running: seq<bool>, script: seq<PollResult>, n: nat)
  {
    n < |running| && (running[n] ==> n < |script|)
  }

  /**
    One iteration of `consume`, number `t.polls`: ask the status checker, poll,
    count an empty batch, stop on the third empty batch of the read, and
    otherwise drain the batch. The result is `Unfinished` exactly when the
    loop goes round again.
   */
  function Step(sp: SplitParam, running: seq<bool>, script: seq<PollResult>, accept: Accept, t: Trace): (r: Trace)
    requires Answers(running, script, t.polls)
    ensures r.polls == t.polls || r.polls == t.polls + 1
    ensures r.polls == t.polls + 1 <==> running[t.polls]
    ensures r.outcome == Unfinished ==> r.polls == t.polls + 1
    ensures r.outcome == t.outcome || r.outcome in {Cancelled, Failed, Exhausted, EndReached}
    ensures t.ops <= r.ops
  {
    if !running[t.polls] then t.(ops := t.ops + [Close], outcome := Cancelled)
    else
      match script[t.polls]
      case Fails => t.(ops := t.ops + [Poll], polls := t.polls + 1, outcome := Failed)
      case Batch(batch) =>
        var empties := if |batch| == 0 then t.emptyPolls + 1 else t.emptyPolls;
        var t1 := t.(ops := t.ops + [Poll], polls := t.polls + 1, emptyPolls := empties);
        if empties >= MaxEmptyResultFoundCount then t1.(ops := t1.ops + [Close], outcome := Exhausted)
        else Drain(sp, batch, accept, t1)
  }

  /**
    The polling loop of `consume`, from trace `t`: iterate until an iteration
    stops the read. The loop also ends when the environment has no answer for
    the next iteration, leaving the trace `Unfinished`.
   */
  function Consume(sp: SplitParam, running: seq<bool>, script: seq<PollResult>, accept: Accept, t: Trace): (r: Trace)
    ensures t.polls <= r.polls
    ensures t.polls <= |running| ==> r.polls <= |running|
    ensures t.polls <= |script| ==> r.polls <= |script|
    ensures t.outcome == Unfinished ==> r.outcome != EmptyLog
    ensures t.ops <= r.ops
    decreases |running| - t.polls
  {
    if !Answers(running, script, t.polls) then t
    else
      var t1 := Step(sp, running, script, accept, t);
      if t1.outcome == Unfinished then Consume(sp, running, script, accept, t1) else t1
  }

  /**
    `readWithConstraint`: set the consumer up, return at once when the log's
    end offset is 0, otherwise run the loop. Leaving the try-with-resources
    block closes the consumer once more on every path out of the method.
   */
  function ReadSplit(sp: SplitParam, logEnd: int, running: seq<bool>, script: seq<PollResult>, accept: Accept): (r: Trace)
    ensures r.outcome == EmptyLog <==> logEnd == 0
    ensures r.polls <= |running| && r.polls <= |script|
    ensures |r.ops| >= 3 && r.ops[..3] == Setup(sp)
  {
    var t0 := Start(sp);
    if logEnd == 0 then t0.(ops := t0.ops + [Close, Close], outcome := EmptyLog)
    else
      var r := Consume(sp, running, script, accept, t0);
      if r.outcome == Unfinished then r else r.(ops := r.ops + [Close])
  }

  // Reference definitions the loop is measured against.

  /** All records delivered by the first `n` polls, in arrival order. */
  function Polled(script: seq<PollResult>, n: nat): seq<Record>
    requires n <= |script|
  {
    if n == 0 then [] else Polled(script, n - 1) + RecordsOf(script[n - 1])
  }

  /** How many of the first `n` polls came back empty. */
  function CountEmpty(script: seq<PollResult>, n: nat): nat
    requires n <= |script|
  {
    if n == 0 then 0 else CountEmpty(script, n - 1) + (if IsEmptyPoll(script[n - 1]) then 1 else 0)
  }

  predicate NoBoundary(recs: seq<Record>, endOffset: int)
  {
    forall i :: 0 <= i < |recs| ==> !IsBoundary(recs[i], endOffset)
  }

  /** `recs` up to and including its first boundary record; all of `recs` if there is none. */
  function UpToBoundary(recs: seq<Record>, endOffset: int): seq<Record>
  {
    if |recs| == 0 then []
    else if IsBoundary(recs[0], endOffset) then [recs[0]]
    else [recs[0]] + UpToBoundary(recs[1..], endOffset)
  }

  /** The consumer operations after the polls, by outcome: explicit close plus the scoped close, the scoped close alone, or none. */
  function Closes(o: Outcome): seq<ConsumerOp>
  {
    match o
    case EmptyLog => [Close, Close]
    case Cancelled => [Close, Close]
    case Exhausted => [Close, Close]
    case EndReached => [Close, Close]
    case Failed => [Close]
    case Unfinished => []
  }
}
