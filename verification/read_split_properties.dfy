/**
  The guarantees of a whole split read (`readWithConstraint`), stated on the
  trace `ReadSplit` returns, for every environment.
 */
module ReadSplitProperties {
  import opened MskTypes
  import opened Projector
  import opened SplitReader
  import opened SplitReaderProofs

  /** When the log is not empty, the read's trace is the loop's trace plus the scoped close on any way out. */
  lemma LoopResult(sp: SplitParam, logEnd: int, running: seq<bool>, script: seq<PollResult>, accept: Accept)
    requires logEnd != 0
    ensures var c := Consume(sp, running, script, accept, Start(sp));
      var r := ReadSplit(sp, logEnd, running, script, accept);
      && r.projected == c.projected && r.written == c.written
      && r.polls == c.polls && r.emptyPolls == c.emptyPolls && r.outcome == c.outcome
      && r.ops == c.ops + (if c.outcome == Unfinished then [] else [Close])
  {
  }

  /**
    The consumer operations of a read, exactly: assign, seek and the end-offset
    query, then one poll per iteration that passed the status check, then the
    closes of the way out (two on the controlled stops and on an empty log, one
    when a poll throws, none while the read is still going).
   */
  lemma ReadSplitOps(sp: SplitParam, logEnd: int, running: seq<bool>, script: seq<PollResult>, accept: Accept)
    ensures var r := ReadSplit(sp, logEnd, running, script, accept);
      r.ops == Setup(sp) + Polls(r.polls) + Closes(r.outcome)
  {
    if logEnd != 0 {
      LoopResult(sp, logEnd, running, script, accept);
      ConsumeOps(sp, running, script, accept, Start(sp));
      ConsumeEnv(sp, running, script, accept, Start(sp));
    }
  }

  /** `Polls(n)` is `n` polls and nothing else. */
  lemma {:induction false} PollsAreAllPolls(n: nat)
    ensures |Polls(n)| == n
    ensures forall i :: 0 <= i < n ==> Polls(n)[i] == Poll
  {
    if n > 0 {
      PollsAreAllPolls(n - 1);
    }
  }

  /** Before any poll the consumer is assigned exactly the split's partition and seeked to its start offset; the end-offset query follows. */
  lemma AssignAndSeekFirst(sp: SplitParam, logEnd: int, running: seq<bool>, script: seq<PollResult>, accept: Accept)
    ensures var r := ReadSplit(sp, logEnd, running, script, accept);
      var tp := TopicPartition(sp.topic, sp.partition);
      && |r.ops| >= 3
      && r.ops[0] == Assign([tp])
      && r.ops[1] == Seek(tp, sp.startOffset)
      && r.ops[2] == EndOffsets([tp])
      && (forall i :: 0 <= i < |r.ops| && r.ops[i] == Poll ==> 3 <= i)
  {
    ReadSplitOps(sp, logEnd, running, script, accept);
  }

  /** Once the consumer is closed, nothing but another close is done with it; and every way out of the read ends with a close. */
  lemma ClosedOnEveryExit(sp: SplitParam, logEnd: int, running: seq<bool>, script: seq<PollResult>, accept: Accept)
    ensures var r := ReadSplit(sp, logEnd, running, script, accept);
      && (r.outcome != Unfinished ==> |r.ops| > 0 && r.ops[|r.ops| - 1] == Close)
      && (r.outcome in {EmptyLog, Cancelled, Exhausted, EndReached} ==> |r.ops| >= 2 && r.ops[|r.ops| - 2..] == [Close, Close])
      && (forall i, j :: 0 <= i < j < |r.ops| && r.ops[i] == Close ==> r.ops[j] == Close)
      && (r.outcome == Unfinished ==> Close !in r.ops)
  {
    var r := ReadSplit(sp, logEnd, running, script, accept);
    ReadSplitOps(sp, logEnd, running, script, accept);
    PollsAreAllPolls(r.polls);
    var pre := Setup(sp) + Polls(r.polls);
    assert r.ops == pre + Closes(r.outcome);
    assert Close !in pre by {
      forall i | 0 <= i < |pre| ensures pre[i] != Close {
        if i >= 3 { assert pre[i] == Polls(r.polls)[i - 3]; }
      }
    }
    forall i, j | 0 <= i < j < |r.ops| && r.ops[i] == Close ensures r.ops[j] == Close {
      assert i >= |pre|;
      assert r.ops[j] == Closes(r.outcome)[j - |pre|];
    }
  }

  /** An end offset of 0 closes the consumer and returns: no poll, no record, no row. Any other end offset enters the loop. */
  lemma EmptyLogReadsNothing(sp: SplitParam, logEnd: int, running: seq<bool>, script: seq<PollResult>, accept: Accept)
    ensures var r := ReadSplit(sp, logEnd, running, script, accept);
      && (r.outcome == EmptyLog <==> logEnd == 0)
      && (logEnd == 0 ==> r.polls == 0 && r.projected == [] && r.written == [] && r.ops == Setup(sp) + [Close, Close])
  {
    if logEnd != 0 {
      LoopResult(sp, logEnd, running, script, accept);
      ConsumeEnv(sp, running, script, accept, Start(sp));
    }
  }

  /**
    The status check comes first in every iteration: every poll was preceded by
    a `true` answer, and a `false` answer ends the read with no further poll.
    So the number of polls is the number of `true` answers consumed.
   */
  lemma StatusCheckedBeforeEveryPoll(sp: SplitParam, logEnd: int, running: seq<bool>, script: seq<PollResult>, accept: Accept)
    ensures var r := ReadSplit(sp, logEnd, running, script, accept);
      && r.polls <= |running| && r.polls <= |script|
      && (forall k :: 0 <= k < r.polls ==> running[k])
      && (r.outcome == Cancelled ==> logEnd != 0 && r.polls < |running| && !running[r.polls])
  {
    if logEnd != 0 {
      LoopResult(sp, logEnd, running, script, accept);
      ConsumeEnv(sp, running, script, accept, Start(sp));
    }
  }

  /** A query that is no longer running when the loop starts reads nothing. */
  lemma CancelledBeforeFirstPoll(sp: SplitParam, logEnd: int, running: seq<bool>, script: seq<PollResult>, accept: Accept)
    requires logEnd != 0 && |running| > 0 && !running[0]
    ensures var r := ReadSplit(sp, logEnd, running, script, accept);
      && r.outcome == Cancelled && r.polls == 0 && r.projected == [] && r.written == []
      && r.ops == Setup(sp) + [Close, Close]
  {
  }

  /** Polling more never lowers the count of empty polls. */
  lemma {:induction false} CountEmptyMonotone(script: seq<PollResult>, m: nat, n: nat)
    requires m <= n <= |script|
    ensures CountEmpty(script, m) <= CountEmpty(script, n)
    decreases n - m
  {
    if m < n {
      CountEmptyMonotone(script, m, n - 1);
    }
  }

  /**
    The empty-poll counter counts every empty batch of the read, cumulatively;
    it never passes the threshold of 3, and the read is exhausted exactly when
    it reaches 3, on an empty poll.
   */
  lemma EmptyPollsBounded(sp: SplitParam, logEnd: int, running: seq<bool>, script: seq<PollResult>, accept: Accept)
    ensures var r := ReadSplit(sp, logEnd, running, script, accept);
      && r.polls <= |script|
      && r.emptyPolls == CountEmpty(script, r.polls)
      && r.emptyPolls <= MaxEmptyResultFoundCount
      && (r.outcome == Exhausted <==> r.emptyPolls == MaxEmptyResultFoundCount)
      && (r.outcome == Exhausted ==> r.polls > 0 && IsEmptyPoll(script[r.polls - 1]))
  {
    if logEnd != 0 {
      LoopResult(sp, logEnd, running, script, accept);
      ConsumeCounts(sp, running, script, accept, Start(sp));
      ConsumeExhausted(sp, running, script, accept, Start(sp));
    }
  }

  /** The read stops at the first poll that brings the count to 3: after every earlier poll `n` it was below. */
  lemma StopsAtThreshold(sp: SplitParam, logEnd: int, running: seq<bool>, script: seq<PollResult>, accept: Accept, n: nat)
    requires n < ReadSplit(sp, logEnd, running, script, accept).polls
    ensures n <= |script| && CountEmpty(script, n) < MaxEmptyResultFoundCount
  {
    var r := ReadSplit(sp, logEnd, running, script, accept);
    EmptyPollsBounded(sp, logEnd, running, script, accept);
    if r.outcome == Exhausted {
      assert CountEmpty(script, r.polls - 1) < MaxEmptyResultFoundCount;
      CountEmptyMonotone(script, n, r.polls - 1);
    } else {
      CountEmptyMonotone(script, n, r.polls);
    }
  }

  /**
    Records are projected in arrival order: the projected records are the
    records of all polled batches, concatenated, up to and including the first
    one at or past `endOffset - 1`; nothing after it, in its batch or a later
    one, is projected.
   */
  lemma ProjectsInArrivalOrder(sp: SplitParam, logEnd: int, running: seq<bool>, script: seq<PollResult>, accept: Accept)
    ensures var r := ReadSplit(sp, logEnd, running, script, accept);
      && r.polls <= |script|
      && r.projected == UpToBoundary(Polled(script, r.polls), sp.endOffset)
      && |r.projected| <= |Polled(script, r.polls)|
      && r.projected == Polled(script, r.polls)[..|r.projected|]
  {
    var r := ReadSplit(sp, logEnd, running, script, accept);
    if logEnd != 0 {
      LoopResult(sp, logEnd, running, script, accept);
      ConsumeProjected(sp, running, script, accept, Start(sp));
      UpToBoundaryPrefix(Polled(script, r.polls), sp.endOffset);
    }
  }

  /**
    The read stops polling at the batch that holds the first record at or past
    `endOffset - 1`: when it reaches the end offset, no batch before its last
    poll held such a record, and the last one did.
   */
  lemma NothingPolledAfterBoundary(sp: SplitParam, logEnd: int, running: seq<bool>, script: seq<PollResult>, accept: Accept)
    ensures var r := ReadSplit(sp, logEnd, running, script, accept);
      r.outcome == EndReached ==>
        && 0 < r.polls <= |script|
        && NoBoundary(Polled(script, r.polls - 1), sp.endOffset)
        && !NoBoundary(RecordsOf(script[r.polls - 1]), sp.endOffset)
  {
    var r := ReadSplit(sp, logEnd, running, script, accept);
    if logEnd != 0 {
      LoopResult(sp, logEnd, running, script, accept);
      ConsumeEndReached(sp, running, script, accept, Start(sp));
      ConsumeProjected(sp, running, script, accept, Start(sp));
      if r.outcome == EndReached {
        BoundaryInLastBatch(script, r.polls, sp.endOffset);
      }
    }
  }

  /** Every projected record but the last lies before `endOffset - 1`; the read stops at the end offset exactly when the last one does not, so the boundary record itself is projected. */
  lemma BoundaryRecordIsLast(sp: SplitParam, logEnd: int, running: seq<bool>, script: seq<PollResult>, accept: Accept)
    ensures var r := ReadSplit(sp, logEnd, running, script, accept);
      && (forall i :: 0 <= i < |r.projected| - 1 ==> r.projected[i].offset < sp.endOffset - 1)
      && (r.outcome == EndReached <==> |r.projected| > 0 && r.projected[|r.projected| - 1].offset >= sp.endOffset - 1)
  {
    var r := ReadSplit(sp, logEnd, running, script, accept);
    if logEnd != 0 {
      LoopResult(sp, logEnd, running, script, accept);
      ConsumeProjected(sp, running, script, accept, Start(sp));
      UpToBoundaryPrefix(Polled(script, r.polls), sp.endOffset);
      if r.outcome == EndReached {
        UpToBoundaryEndsAtBoundary(Polled(script, r.polls), sp.endOffset);
      } else if |r.projected| > 0 {
        assert !IsBoundary(r.projected[|r.projected| - 1], sp.endOffset);
      }
    }
  }

  /** The sink receives exactly the projected records, in order: its rows are the fold of `writeRows` over them. */
  lemma RowsFollowProjection(sp: SplitParam, logEnd: int, running: seq<bool>, script: seq<PollResult>, accept: Accept)
    ensures var r := ReadSplit(sp, logEnd, running, script, accept);
      r.written == Sink(r.projected, accept)
  {
    if logEnd != 0 {
      LoopResult(sp, logEnd, running, script, accept);
      ConsumeWritten(sp, running, script, accept, Start(sp));
    }
  }

  /** Every row the sink keeps is a projected record, and when the row builder accepts everything, every projected record becomes a row. */
  lemma {:induction false} SinkKeepsProjectedRecords(projected: seq<Record>, accept: Accept)
    ensures |Sink(projected, accept)| <= |projected|
    ensures forall rec :: rec in Sink(projected, accept) ==> rec in projected
    ensures (forall n, i, v :: accept(n, i, v)) ==> Sink(projected, accept) == projected
    decreases |projected|
  {
    if |projected| > 0 {
      var init := projected[..|projected| - 1];
      var last := projected[|projected| - 1];
      SinkKeepsProjectedRecords(init, accept);
      assert projected == init + [last];
      var rows := Sink(init, accept);
      assert Sink(projected, accept) == WriteRow(rows, last, accept);
      assert (forall n, i, v :: accept(n, i, v)) ==> AllAccepted(last.fields, |rows|, accept);
    }
  }

  /**
    When the log delivers consecutive offsets from the start offset and the
    read reaches the end offset, exactly the offsets `startOffset` to
    `endOffset - 1` are projected, in increasing order.
   */
  lemma ConsecutiveLogReadsExactRange(sp: SplitParam, logEnd: int, running: seq<bool>, script: seq<PollResult>, accept: Accept)
    requires sp.startOffset < sp.endOffset
    requires var r := ReadSplit(sp, logEnd, running, script, accept);
      && r.outcome == EndReached
      && forall i :: 0 <= i < |Polled(script, r.polls)| ==> Polled(script, r.polls)[i].offset == sp.startOffset + i
    ensures var r := ReadSplit(sp, logEnd, running, script, accept);
      && |r.projected| == sp.endOffset - sp.startOffset
      && forall i :: 0 <= i < |r.projected| ==> r.projected[i].offset == sp.startOffset + i
  {
    var r := ReadSplit(sp, logEnd, running, script, accept);
    ProjectsInArrivalOrder(sp, logEnd, running, script, accept);
    BoundaryRecordIsLast(sp, logEnd, running, script, accept);
    var all := Polled(script, r.polls);
    var p := r.projected;
    assert forall i :: 0 <= i < |p| ==> p[i] == all[i];
    assert p[|p| - 1].offset == sp.startOffset + |p| - 1;
    if |p| >= 2 {
      assert p[|p| - 2].offset == sp.startOffset + |p| - 2;
    }
  }

  /** The records of the first `m` polls are a prefix of those of the first `n`. */
  lemma {:induction false} PolledPrefix(script: seq<PollResult>, m: nat, n: nat)
    requires m <= n <= |script|
    ensures var a := Polled(script, m); var b := Polled(script, n);
      |a| <= |b| && a == b[..|a|]
    decreases n - m
  {
    if m < n {
      PolledPrefix(script, m, n - 1);
    }
  }

  /**
    A read of a log that covers the split reaches the end offset: when the
    query keeps running, no poll throws, fewer than 3 polls come back empty,
    and the batches deliver consecutive offsets from the start offset up to at
    least `endOffset - 1`, the read neither stops early nor runs out.
   */
  lemma CoveringLogReachesEnd(sp: SplitParam, logEnd: int, running: seq<bool>, script: seq<PollResult>, accept: Accept)
    requires logEnd != 0 && sp.startOffset < sp.endOffset
    requires |script| <= |running| && forall k :: 0 <= k < |running| ==> running[k]
    requires forall k :: 0 <= k < |script| ==> script[k].Batch?
    requires CountEmpty(script, |script|) < MaxEmptyResultFoundCount
    requires var all := Polled(script, |script|);
      && |all| >= sp.endOffset - sp.startOffset
      && forall i :: 0 <= i < |all| ==> all[i].offset == sp.startOffset + i
    ensures ReadSplit(sp, logEnd, running, script, accept).outcome == EndReached
  {
    var r := ReadSplit(sp, logEnd, running, script, accept);
    LoopResult(sp, logEnd, running, script, accept);
    ConsumeEnv(sp, running, script, accept, Start(sp));
    EmptyPollsBounded(sp, logEnd, running, script, accept);
    ConsumeProjected(sp, running, script, accept, Start(sp));
    CountEmptyMonotone(script, r.polls, |script|);
    if r.outcome != EndReached {
      assert r.outcome == Unfinished;
      assert r.polls == |script|;
      var all := Polled(script, |script|);
      assert IsBoundary(all[sp.endOffset - sp.startOffset - 1], sp.endOffset);
      UpToBoundaryEndsAtBoundary(all, sp.endOffset);
      assert false;
    }
  }

  /** Over such a covering log, the read projects exactly the offsets `startOffset` to `endOffset - 1`, in order. */
  lemma CoveringLogReadsExactRange(sp: SplitParam, logEnd: int, running: seq<bool>, script: seq<PollResult>, accept: Accept)
    requires logEnd != 0 && sp.startOffset < sp.endOffset
    requires |script| <= |running| && forall k :: 0 <= k < |running| ==> running[k]
    requires forall k :: 0 <= k < |script| ==> script[k].Batch?
    requires CountEmpty(script, |script|) < MaxEmptyResultFoundCount
    requires var all := Polled(script, |script|);
      && |all| >= sp.endOffset - sp.startOffset
      && forall i :: 0 <= i < |all| ==> all[i].offset == sp.startOffset + i
    ensures var r := ReadSplit(sp, logEnd, running, script, accept);
      && r.outcome == EndReached
      && |r.projected| == sp.endOffset - sp.startOffset
      && forall i :: 0 <= i < |r.projected| ==> r.projected[i].offset == sp.startOffset + i
  {
    var r := ReadSplit(sp, logEnd, running, script, accept);
    CoveringLogReachesEnd(sp, logEnd, running, script, accept);
    PolledPrefix(script, r.polls, |script|);
    var part := Polled(script, r.polls);
    var all := Polled(script, |script|);
    assert forall i :: 0 <= i < |part| ==> part[i] == all[i];
    ConsecutiveLogReadsExactRange(sp, logEnd, running, script, accept);
  }
}
