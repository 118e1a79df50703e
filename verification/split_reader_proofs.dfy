/**
  The polling loop's invariants, proved by induction over `Consume` against
  the reference definitions `Polled`, `UpToBoundary`, `CountEmpty` and `Sink`.
  Each group of facts (environment, counter, records, consumer operations)
  has its own induction so that each proof stays small.
 */
module SplitReaderProofs {
  import opened MskTypes
  import opened Projector
  import opened SplitReader

  /** The consumer operations `consume` itself issues after its polls: one explicit close on the three controlled stops. */
  function ExplicitClose(o: Outcome): seq<ConsumerOp>
  {
    if o == Cancelled || o == Exhausted || o == EndReached then [Close] else []
  }

  // ---------------------------------------------------------------------
  // The cut at the first boundary record

  /** Without a boundary record the cut keeps everything. */
  lemma {:induction false} UpToBoundaryWhole(recs: seq<Record>, endOffset: int)
    requires NoBoundary(recs, endOffset)
    ensures UpToBoundary(recs, endOffset) == recs
    decreases |recs|
  {
    if |recs| > 0 {
      assert NoBoundary(recs[1..], endOffset) by {
        forall i | 0 <= i < |recs[1..]| ensures !IsBoundary(recs[1..][i], endOffset) {
          assert recs[1..][i] == recs[i + 1];
        }
      }
      UpToBoundaryWhole(recs[1..], endOffset);
      assert recs == [recs[0]] + recs[1..];
    }
  }

  /** With a boundary record the cut ends at one. */
  lemma {:induction false} UpToBoundaryEndsAtBoundary(recs: seq<Record>, endOffset: int)
    requires !NoBoundary(recs, endOffset)
    ensures var u := UpToBoundary(recs, endOffset); |u| > 0 && IsBoundary(u[|u| - 1], endOffset)
    decreases |recs|
  {
    if !IsBoundary(recs[0], endOffset) {
      assert !NoBoundary(recs[1..], endOffset) by {
        var i :| 0 <= i < |recs| && IsBoundary(recs[i], endOffset);
        assert recs[1..][i - 1] == recs[i];
      }
      UpToBoundaryEndsAtBoundary(recs[1..], endOffset);
    }
  }

  /** The cut is a prefix of its input, and no record before its last one is a boundary record. */
  lemma {:induction false} UpToBoundaryPrefix(recs: seq<Record>, endOffset: int)
    ensures var u := UpToBoundary(recs, endOffset);
      && |u| <= |recs| && u == recs[..|u|]
      && (forall i :: 0 <= i < |u| - 1 ==> !IsBoundary(u[i], endOffset))
    decreases |recs|
  {
    if |recs| > 0 && !IsBoundary(recs[0], endOffset) {
      var tail := recs[1..];
      UpToBoundaryPrefix(tail, endOffset);
      var u := UpToBoundary(recs, endOffset);
      var v := UpToBoundary(tail, endOffset);
      assert u == [recs[0]] + v;
      assert recs[..|u|] == [recs[0]] + tail[..|v|];
      forall i | 0 <= i < |u| - 1 ensures !IsBoundary(u[i], endOffset) {
        if i > 0 { assert u[i] == v[i - 1]; }
      }
    }
  }

  /** Records before the first boundary pass through the cut unchanged. */
  lemma {:induction false} UpToBoundaryAppend(a: seq<Record>, b: seq<Record>, endOffset: int)
    requires NoBoundary(a, endOffset)
    ensures UpToBoundary(a + b, endOffset) == a + UpToBoundary(b, endOffset)
    decreases |a|
  {
    if |a| > 0 {
      assert (a + b)[0] == a[0];
      assert (a + b)[1..] == a[1..] + b;
      assert NoBoundary(a[1..], endOffset) by {
        forall i | 0 <= i < |a[1..]| ensures !IsBoundary(a[1..][i], endOffset) {
          assert a[1..][i] == a[i + 1];
        }
      }
      UpToBoundaryAppend(a[1..], b, endOffset);
      assert a == [a[0]] + a[1..];
    } else {
      assert a + b == b;
    }
  }

  /** A concatenation has no boundary record iff neither part has one. */
  lemma NoBoundaryAppend(a: seq<Record>, b: seq<Record>, endOffset: int)
    ensures NoBoundary(a + b, endOffset) <==> NoBoundary(a, endOffset) && NoBoundary(b, endOffset)
  {
    if NoBoundary(a + b, endOffset) {
      forall i | 0 <= i < |a| ensures !IsBoundary(a[i], endOffset) {
        assert a[i] == (a + b)[i];
      }
      forall i | 0 <= i < |b| ensures !IsBoundary(b[i], endOffset) {
        assert b[i] == (a + b)[|a| + i];
      }
    }
  }

  /** When the first `n - 1` polls delivered no boundary record but the cut of the first `n` holds one, the `n`-th poll delivered it. */
  lemma BoundaryInLastBatch(script: seq<PollResult>, n: nat, endOffset: int)
    requires 0 < n <= |script|
    requires NoBoundary(Polled(script, n - 1), endOffset)
    requires !NoBoundary(UpToBoundary(Polled(script, n), endOffset), endOffset)
    ensures !NoBoundary(RecordsOf(script[n - 1]), endOffset)
  {
    var all := Polled(script, n);
    var u := UpToBoundary(all, endOffset);
    UpToBoundaryPrefix(all, endOffset);
    assert !NoBoundary(all, endOffset) by {
      var i :| 0 <= i < |u| && IsBoundary(u[i], endOffset);
      assert u[i] == all[i];
    }
    NoBoundaryAppend(Polled(script, n - 1), RecordsOf(script[n - 1]), endOffset);
  }

  // ---------------------------------------------------------------------
  // One batch

  /** Feeding one more record to the sink extends the fold by one step. */
  lemma SinkStep(projected: seq<Record>, rec: Record, accept: Accept)
    ensures Sink(projected + [rec], accept) == WriteRow(Sink(projected, accept), rec, accept)
  {
    assert (projected + [rec])[..|projected|] == projected;
  }

  /** A batch stops the read, with one close, exactly when it holds a boundary record. */
  lemma {:induction false} DrainOutcome(sp: SplitParam, batch: seq<Record>, accept: Accept, t: Trace)
    requires t.outcome == Unfinished
    ensures var r := Drain(sp, batch, accept, t);
      && (NoBoundary(batch, sp.endOffset) ==> r.outcome == Unfinished && r.ops == t.ops)
      && (!NoBoundary(batch, sp.endOffset) ==> r.outcome == EndReached && r.ops == t.ops + [Close])
    decreases |batch|
  {
    if |batch| > 0 {
      var rec := batch[0];
      var t1 := t.(projected := t.projected + [rec], written := WriteRow(t.written, rec, accept));
      if !IsBoundary(rec, sp.endOffset) {
        DrainOutcome(sp, batch[1..], accept, t1);
        assert batch == [rec] + batch[1..];
        NoBoundaryAppend([rec], batch[1..], sp.endOffset);
      } else {
        assert !NoBoundary(batch, sp.endOffset) by { assert IsBoundary(batch[0], sp.endOffset); }
      }
    }
  }

  /** A batch's records up to its first boundary record are projected, in order. */
  lemma {:induction false} DrainProjected(sp: SplitParam, batch: seq<Record>, accept: Accept, t: Trace)
    ensures Drain(sp, batch, accept, t).projected == t.projected + UpToBoundary(batch, sp.endOffset)
    decreases |batch|
  {
    if |batch| > 0 && !IsBoundary(batch[0], sp.endOffset) {
      var rec := batch[0];
      var t1 := t.(projected := t.projected + [rec], written := WriteRow(t.written, rec, accept));
      DrainProjected(sp, batch[1..], accept, t1);
      assert t1.projected + UpToBoundary(batch[1..], sp.endOffset) == t.projected + ([rec] + UpToBoundary(batch[1..], sp.endOffset));
    }
  }

  /** The sink sees every projected record, in order. */
  lemma {:induction false} DrainWritten(sp: SplitParam, batch: seq<Record>, accept: Accept, t: Trace)
    requires t.written == Sink(t.projected, accept)
    ensures var r := Drain(sp, batch, accept, t); r.written == Sink(r.projected, accept)
    decreases |batch|
  {
    if |batch| > 0 {
      var rec := batch[0];
      var t1 := t.(projected := t.projected + [rec], written := WriteRow(t.written, rec, accept));
      SinkStep(t.projected, rec, accept);
      if !IsBoundary(rec, sp.endOffset) {
        DrainWritten(sp, batch[1..], accept, t1);
      }
    }
  }

  /** One batch on top of boundary-free records: the projected records become the cut of their concatenation, and the batch stops the read exactly when the cut holds a boundary record. */
  lemma DrainStepProjected(sp: SplitParam, batch: seq<Record>, accept: Accept, t: Trace)
    requires t.outcome == Unfinished && NoBoundary(t.projected, sp.endOffset)
    ensures var r := Drain(sp, batch, accept, t);
      && r.projected == UpToBoundary(t.projected + batch, sp.endOffset)
      && (r.outcome == EndReached ==> !NoBoundary(r.projected, sp.endOffset))
      && (r.outcome != EndReached ==> r.outcome == Unfinished && r.projected == t.projected + batch && NoBoundary(r.projected, sp.endOffset))
  {
    var e := sp.endOffset;
    DrainOutcome(sp, batch, accept, t);
    DrainProjected(sp, batch, accept, t);
    UpToBoundaryAppend(t.projected, batch, e);
    NoBoundaryAppend(t.projected, batch, e);
    if NoBoundary(batch, e) {
      UpToBoundaryWhole(batch, e);
    } else {
      UpToBoundaryEndsAtBoundary(t.projected + batch, e);
    }
  }

  // ---------------------------------------------------------------------
  // One iteration

  /** The records an iteration's poll delivered: none when it stopped before polling. */
  function Delivered(script: seq<PollResult>, t: Trace, r: Trace): seq<Record>
    requires r.polls > t.polls ==> t.polls < |script|
  {
    if r.polls > t.polls then RecordsOf(script[t.polls]) else []
  }

  /** Which answer of the environment ended an iteration, if any. */
  lemma StepEnv(sp: SplitParam, running: seq<bool>, script: seq<PollResult>, accept: Accept, t: Trace)
    requires Answers(running, script, t.polls) && t.outcome == Unfinished
    ensures var r := Step(sp, running, script, accept, t);
      && r.outcome != EmptyLog
      && (r.outcome == Cancelled <==> !running[t.polls])
      && (r.outcome == Cancelled ==> r.polls == t.polls)
      && (r.outcome != Cancelled ==> r.polls == t.polls + 1 && t.polls < |script|)
      && (r.outcome == Failed <==> running[t.polls] && script[t.polls].Fails?)
  {
    if running[t.polls] && script[t.polls].Batch? {
      var batch := script[t.polls].records;
      var empties := if |batch| == 0 then t.emptyPolls + 1 else t.emptyPolls;
      DrainOutcome(sp, batch, accept, t.(ops := t.ops + [Poll], polls := t.polls + 1, emptyPolls := empties));
    }
  }

  /** An iteration that polls adds one to the counter exactly when the poll came back empty. */
  lemma StepCounts(sp: SplitParam, running: seq<bool>, script: seq<PollResult>, accept: Accept, t: Trace)
    requires Answers(running, script, t.polls)
    ensures var r := Step(sp, running, script, accept, t);
      r.emptyPolls == t.emptyPolls + (if r.polls > t.polls && IsEmptyPoll(script[t.polls]) then 1 else 0)
  {
  }

  /** An iteration exhausts the read exactly when its empty poll brings the counter to the threshold. */
  lemma StepExhausted(sp: SplitParam, running: seq<bool>, script: seq<PollResult>, accept: Accept, t: Trace)
    requires Answers(running, script, t.polls)
    requires t.outcome == Unfinished && t.emptyPolls < MaxEmptyResultFoundCount
    ensures var r := Step(sp, running, script, accept, t);
      && r.emptyPolls <= MaxEmptyResultFoundCount
      && (r.outcome == Exhausted <==> r.emptyPolls == MaxEmptyResultFoundCount)
      && (r.outcome == Exhausted ==> running[t.polls] && r.polls == t.polls + 1 && IsEmptyPoll(script[t.polls]))
  {
    if running[t.polls] && script[t.polls].Batch? {
      var batch := script[t.polls].records;
      var empties := if |batch| == 0 then t.emptyPolls + 1 else t.emptyPolls;
      DrainOutcome(sp, batch, accept, t.(ops := t.ops + [Poll], polls := t.polls + 1, emptyPolls := empties));
    }
  }

  /** An iteration projects the delivered records up to the first boundary record, and stops at the end offset exactly when it met one. */
  lemma StepProjected(sp: SplitParam, running: seq<bool>, script: seq<PollResult>, accept: Accept, t: Trace)
    requires Answers(running, script, t.polls)
    requires t.outcome == Unfinished && t.emptyPolls < MaxEmptyResultFoundCount && NoBoundary(t.projected, sp.endOffset)
    ensures var r := Step(sp, running, script, accept, t);
      var got := Delivered(script, t, r);
      && (r.outcome == EndReached ==> r.projected == UpToBoundary(t.projected + got, sp.endOffset) && !NoBoundary(r.projected, sp.endOffset))
      && (r.outcome != EndReached ==> r.projected == t.projected + got && NoBoundary(r.projected, sp.endOffset))
  {
    var r := Step(sp, running, script, accept, t);
    if running[t.polls] && script[t.polls].Batch? {
      var batch := script[t.polls].records;
      var empties := if |batch| == 0 then t.emptyPolls + 1 else t.emptyPolls;
      if empties < MaxEmptyResultFoundCount {
        DrainStepProjected(sp, batch, accept, t.(ops := t.ops + [Poll], polls := t.polls + 1, emptyPolls := empties));
      } else {
        assert t.projected + batch == t.projected;
      }
    } else {
      assert t.projected + Delivered(script, t, r) == t.projected;
    }
  }

  /** An iteration keeps the sink's rows the fold of the projector over the projected records. */
  lemma StepWritten(sp: SplitParam, running: seq<bool>, script: seq<PollResult>, accept: Accept, t: Trace)
    requires Answers(running, script, t.polls)
    requires t.written == Sink(t.projected, accept)
    ensures var r := Step(sp, running, script, accept, t); r.written == Sink(r.projected, accept)
  {
    if running[t.polls] && script[t.polls].Batch? {
      var batch := script[t.polls].records;
      var empties := if |batch| == 0 then t.emptyPolls + 1 else t.emptyPolls;
      DrainWritten(sp, batch, accept, t.(ops := t.ops + [Poll], polls := t.polls + 1, emptyPolls := empties));
    }
  }

  /** An iteration issues a poll when it gets past the status check, then its explicit close if it stops the read. */
  lemma StepOps(sp: SplitParam, running: seq<bool>, script: seq<PollResult>, accept: Accept, t: Trace)
    requires Answers(running, script, t.polls) && t.outcome == Unfinished
    ensures var r := Step(sp, running, script, accept, t);
      r.ops == t.ops + (if r.polls > t.polls then [Poll] else []) + ExplicitClose(r.outcome)
  {
    if running[t.polls] && script[t.polls].Batch? {
      var batch := script[t.polls].records;
      var empties := if |batch| == 0 then t.emptyPolls + 1 else t.emptyPolls;
      DrainOutcome(sp, batch, accept, t.(ops := t.ops + [Poll], polls := t.polls + 1, emptyPolls := empties));
    }
  }

  // ---------------------------------------------------------------------
  // The loop, one group of facts at a time

  /** How the loop consumes its environment: status answers, poll results, and which of them ended it. */
  lemma {:induction false} ConsumeEnv(sp: SplitParam, running: seq<bool>, script: seq<PollResult>, accept: Accept, t: Trace)
    requires t.outcome == Unfinished && t.polls <= |script| && t.polls <= |running|
    requires forall k :: 0 <= k < t.polls ==> running[k] && script[k].Batch?
    ensures var r := Consume(sp, running, script, accept, t);
      && r.polls <= |script| && r.polls <= |running|
      && r.outcome != EmptyLog
      && (forall k :: 0 <= k < r.polls ==> running[k])
      && (forall k :: 0 <= k < r.polls - 1 ==> script[k].Batch?)
      && (r.outcome == Cancelled ==> r.polls < |running| && !running[r.polls])
      && (r.outcome == Unfinished ==> !Answers(running, script, r.polls))
      && (r.outcome == Failed <==> r.polls > 0 && script[r.polls - 1].Fails?)
    decreases |running| - t.polls
  {
    if Answers(running, script, t.polls) {
      StepEnv(sp, running, script, accept, t);
      var t1 := Step(sp, running, script, accept, t);
      if t1.outcome == Unfinished {
        ConsumeEnv(sp, running, script, accept, t1);
      }
    }
  }

  /** The empty-poll counter counts every empty batch polled so far, over the whole read. */
  lemma {:induction false} ConsumeCounts(sp: SplitParam, running: seq<bool>, script: seq<PollResult>, accept: Accept, t: Trace)
    requires t.polls <= |script| && t.emptyPolls == CountEmpty(script, t.polls)
    ensures var r := Consume(sp, running, script, accept, t);
      r.polls <= |script| && r.emptyPolls == CountEmpty(script, r.polls)
    decreases |running| - t.polls
  {
    if Answers(running, script, t.polls) {
      StepCounts(sp, running, script, accept, t);
      var t1 := Step(sp, running, script, accept, t);
      if running[t.polls] {
        assert CountEmpty(script, t.polls + 1) == t.emptyPolls + (if IsEmptyPoll(script[t.polls]) then 1 else 0);
      }
      if t1.outcome == Unfinished {
        ConsumeCounts(sp, running, script, accept, t1);
      }
    }
  }

  /** The counter never passes the threshold, and the loop is exhausted exactly when it reaches it, which happens on an empty poll. */
  lemma {:induction false} ConsumeExhausted(sp: SplitParam, running: seq<bool>, script: seq<PollResult>, accept: Accept, t: Trace)
    requires t.outcome == Unfinished && t.emptyPolls < MaxEmptyResultFoundCount
    ensures var r := Consume(sp, running, script, accept, t);
      && r.emptyPolls <= MaxEmptyResultFoundCount
      && (r.outcome == Exhausted <==> r.emptyPolls == MaxEmptyResultFoundCount)
      && (r.outcome == Exhausted ==> 0 < r.polls <= |script| && IsEmptyPoll(script[r.polls - 1]))
    decreases |running| - t.polls
  {
    if Answers(running, script, t.polls) {
      StepExhausted(sp, running, script, accept, t);
      var t1 := Step(sp, running, script, accept, t);
      if t1.outcome == Unfinished {
        ConsumeExhausted(sp, running, script, accept, t1);
      }
    }
  }

  /** The records: the projected ones are the polled ones cut after the first boundary record, and the loop reached the end offset exactly when one of them is a boundary record. */
  lemma {:induction false} ConsumeProjected(sp: SplitParam, running: seq<bool>, script: seq<PollResult>, accept: Accept, t: Trace)
    requires t.outcome == Unfinished && t.polls <= |script| && t.emptyPolls < MaxEmptyResultFoundCount
    requires t.projected == Polled(script, t.polls) && NoBoundary(t.projected, sp.endOffset)
    ensures var r := Consume(sp, running, script, accept, t);
      && r.polls <= |script|
      && r.projected == UpToBoundary(Polled(script, r.polls), sp.endOffset)
      && (r.outcome == EndReached <==> !NoBoundary(r.projected, sp.endOffset))
    decreases |running| - t.polls
  {
    if Answers(running, script, t.polls) {
      StepProjected(sp, running, script, accept, t);
      StepExhausted(sp, running, script, accept, t);
      var t1 := Step(sp, running, script, accept, t);
      assert Polled(script, t1.polls) == t.projected + Delivered(script, t, t1);
      if t1.outcome == Unfinished {
        ConsumeProjected(sp, running, script, accept, t1);
      } else if t1.outcome != EndReached {
        UpToBoundaryWhole(t1.projected, sp.endOffset);
      }
    } else {
      UpToBoundaryWhole(t.projected, sp.endOffset);
    }
  }

  /** The loop polls nothing after the batch that held the first boundary record: when it reaches the end offset, every batch before its last poll was free of boundary records. */
  lemma {:induction false} ConsumeEndReached(sp: SplitParam, running: seq<bool>, script: seq<PollResult>, accept: Accept, t: Trace)
    requires t.outcome == Unfinished && t.polls <= |script| && t.emptyPolls < MaxEmptyResultFoundCount
    requires t.projected == Polled(script, t.polls) && NoBoundary(t.projected, sp.endOffset)
    ensures var r := Consume(sp, running, script, accept, t);
      r.outcome == EndReached ==> 0 < r.polls <= |script| && NoBoundary(Polled(script, r.polls - 1), sp.endOffset)
    decreases |running| - t.polls
  {
    if Answers(running, script, t.polls) {
      StepEnv(sp, running, script, accept, t);
      StepProjected(sp, running, script, accept, t);
      StepExhausted(sp, running, script, accept, t);
      var t1 := Step(sp, running, script, accept, t);
      if t1.outcome == Unfinished {
        assert Polled(script, t1.polls) == t.projected + Delivered(script, t, t1);
        ConsumeEndReached(sp, running, script, accept, t1);
      }
    }
  }

  /** The sink: the rows kept are the fold of the projector over the projected records, in order. */
  lemma {:induction false} ConsumeWritten(sp: SplitParam, running: seq<bool>, script: seq<PollResult>, accept: Accept, t: Trace)
    requires t.written == Sink(t.projected, accept)
    ensures var r := Consume(sp, running, script, accept, t); r.written == Sink(r.projected, accept)
    decreases |running| - t.polls
  {
    if Answers(running, script, t.polls) {
      StepWritten(sp, running, script, accept, t);
      var t1 := Step(sp, running, script, accept, t);
      if t1.outcome == Unfinished {
        ConsumeWritten(sp, running, script, accept, t1);
      }
    }
  }

  lemma PollsStep(sp: SplitParam, ops: seq<ConsumerOp>, n: nat)
    requires ops == Setup(sp) + Polls(n)
    ensures ops + [Poll] == Setup(sp) + Polls(n + 1)
  {
  }

  /** The consumer operations: the setup, one poll per iteration that got past the status check, then at most one close. */
  lemma {:induction false} ConsumeOps(sp: SplitParam, running: seq<bool>, script: seq<PollResult>, accept: Accept, t: Trace)
    requires t.outcome == Unfinished
    requires t.ops == Setup(sp) + Polls(t.polls)
    ensures var r := Consume(sp, running, script, accept, t);
      r.ops == Setup(sp) + Polls(r.polls) + ExplicitClose(r.outcome)
    decreases |running| - t.polls
  {
    if Answers(running, script, t.polls) {
      StepOps(sp, running, script, accept, t);
      var t1 := Step(sp, running, script, accept, t);
      if t1.polls > t.polls {
        PollsStep(sp, t.ops, t.polls);
      }
      if t1.outcome == Unfinished {
        ConsumeOps(sp, running, script, accept, t1);
      }
    } else {
      assert t.ops + [] == t.ops;
    }
  }
}
