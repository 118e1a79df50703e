/**
  The record handler written the way the connector runs it: a `while (true)`
  polling loop left by `return` where the connector breaks out of it, a loop
  over each batch, and the row callback's field loop with its early `return 0`. Each method is proved
  to compute exactly what the functional model in `SplitReader` and
  `Projector` defines.
 */
module RecordHandler {
  import opened MskTypes
  import opened Projector
  import SplitReader

  /** The callback on the fields from `i` on: the offer of field `i`, then, if it was accepted, the callback on the rest. */
  lemma ProjectFrom(fields: seq<Field>, i: nat, rowNum: int, accept: Accept)
    requires i < |fields|
    ensures var o := OfferOf(fields[i], rowNum);
      var p := Project(fields[i..], rowNum, accept);
      var rest := Project(fields[i + 1..], rowNum, accept);
      && (!Admits(accept, o) ==> p.offered == [o] && p.rows == 0)
      && (Admits(accept, o) ==> p.offered == [o] + rest.offered && p.rows == rest.rows)
  {
    assert fields[i..][1..] == fields[i + 1..];
  }

  /**
    The callback `execute` hands to `writeRows`: offer the fields in order and
    report 0 at the first rejection, 1 when every field was accepted.
   */
  method OfferFields(fields: seq<Field>, rowNum: int, accept: Accept) returns (rows: nat, offered: seq<Offer>)
    ensures Projection(offered, rows) == Project(fields, rowNum, accept)
    ensures rows == 1 <==> AllAccepted(fields, rowNum, accept)
    ensures rows == 0 || rows == 1
  {
    offered := [];
    var i := 0;
    assert fields[0..] == fields;
    while i < |fields|
      invariant 0 <= i <= |fields|
      invariant Project(fields, rowNum, accept).offered == offered + Project(fields[i..], rowNum, accept).offered
      invariant Project(fields, rowNum, accept).rows == Project(fields[i..], rowNum, accept).rows
    {
      var o := OfferOf(fields[i], rowNum);
      ProjectFrom(fields, i, rowNum, accept);
      offered := offered + [o];
      if !accept(o.name, o.rowNum, o.value) {
        ProjectRowIffAccepted(fields, rowNum, accept);
        return 0, offered;
      }
      i := i + 1;
    }
    assert fields[i..] == [];
    rows := 1;
    ProjectRowIffAccepted(fields, rowNum, accept);
  }

  /** `execute`: one `writeRows` call; the sink keeps the record as its next row when the callback reports 1. */
  method Execute(written: seq<Record>, rec: Record, accept: Accept) returns (after: seq<Record>)
    ensures after == WriteRow(written, rec, accept)
  {
    var rows, _ := OfferFields(rec.fields, |written|, accept);
    after := if rows == 1 then written + [rec] else written;
  }

  /** `consume`: the polling loop, run from trace `t0`. */
  method Consume(sp: SplitParam, running: seq<bool>, script: seq<PollResult>, accept: Accept, t0: Trace) returns (r: Trace)
    requires t0.outcome == Unfinished
    ensures r == SplitReader.Consume(sp, running, script, accept, t0)
  {
    var t := t0;
    while true
      invariant t.outcome == Unfinished
      invariant SplitReader.Consume(sp, running, script, accept, t) == SplitReader.Consume(sp, running, script, accept, t0)
      decreases |running| - t.polls
    {
      if t.polls >= |running| {
        return t;
      }
      if !running[t.polls] {
        return t.(ops := t.ops + [Close], outcome := Cancelled);
      }
      if t.polls >= |script| {
        return t;
      }
      var polled := script[t.polls];
      if polled.Fails? {
        return t.(ops := t.ops + [Poll], polls := t.polls + 1, outcome := Failed);
      }
      var batch := polled.records;
      var empties := t.emptyPolls;
      if |batch| == 0 {
        empties := empties + 1;
      }
      var t1 := t.(ops := t.ops + [Poll], polls := t.polls + 1, emptyPolls := empties);
      if empties >= MaxEmptyResultFoundCount {
        return t1.(ops := t1.ops + [Close], outcome := Exhausted);
      }
      var cur := t1;
      var i := 0;
      while i < |batch|
        invariant 0 <= i <= |batch|
        invariant cur.polls == t1.polls && cur.outcome == Unfinished
        invariant SplitReader.Drain(sp, batch[i..], accept, cur) == SplitReader.Drain(sp, batch, accept, t1)
      {
        var rec := batch[i];
        var written := Execute(cur.written, rec, accept);
        cur := cur.(projected := cur.projected + [rec], written := written);
        if IsBoundary(rec, sp.endOffset) {
          return cur.(ops := cur.ops + [Close], outcome := EndReached);
        }
        assert batch[i..][1..] == batch[i + 1..];
        i := i + 1;
      }
      assert batch[i..] == [];
      t := cur;
    }
  }

  /**
    `readWithConstraint`: assign the split's partition, seek to its start,
    return at once on an empty log, otherwise consume. The try-with-resources
    block closes the consumer on the way out of either path.
   */
  method ReadWithConstraint(sp: SplitParam, logEnd: int, running: seq<bool>, script: seq<PollResult>, accept: Accept) returns (tr: Trace)
    ensures tr == SplitReader.ReadSplit(sp, logEnd, running, script, accept)
  {
    var tp := PartitionOf(sp);
    var ops := [Assign([tp]), Seek(tp, sp.startOffset), EndOffsets([tp])];
    if logEnd == 0 {
      return Trace(ops + [Close, Close], [], [], 0, 0, EmptyLog);
    }
    tr := Consume(sp, running, script, accept, Trace(ops, [], [], 0, 0, Unfinished));
    if tr.outcome != Unfinished {
      tr := tr.(ops := tr.ops + [Close]);
    }
  }
}
