/** Concrete split reads, worked through the model. */
module Scenarios {
  import opened MskTypes
  import opened Projector
  import opened SplitReader

  function Rec(offset: int): Record
  {
    Record(offset, [Field("v", Opaque("x"))])
  }

  function AcceptAll(): Accept
  {
    (name: string, rowNum: int, value: Value) => true
  }

  /**
    The split [10, 13) over a log holding offsets 10 to 14, delivered in one
    batch: offsets 10, 11 and 12 become rows, 13 and 14 are never projected,
    and the consumer is closed after the one poll.
   */
  lemma EndOffsetIsExclusive()
    ensures var sp := SplitParam("t", 0, 10, 13);
      var batch := [Rec(10), Rec(11), Rec(12), Rec(13), Rec(14)];
      var r := ReadSplit(sp, 15, [true, true], [Batch(batch), Batch([])], AcceptAll());
      && r.outcome == EndReached
      && r.polls == 1
      && r.projected == [Rec(10), Rec(11), Rec(12)]
      && r.written == [Rec(10), Rec(11), Rec(12)]
      && r.ops == Setup(sp) + [Poll, Close, Close]
  {
  }

  /**
    The empty-poll counter is not reset by a non-empty batch: empty, one
    record, empty, empty ends the read after the fourth poll, as exhausted.
   */
  lemma EmptyCounterIsCumulative()
    ensures var sp := SplitParam("t", 0, 0, 100);
      var script := [Batch([]), Batch([Rec(0)]), Batch([]), Batch([]), Batch([Rec(1)])];
      var r := ReadSplit(sp, 100, [true, true, true, true, true], script, AcceptAll());
      && r.outcome == Exhausted
      && r.polls == 4
      && r.emptyPolls == 3
      && r.projected == [Rec(0)]
      && r.ops == Setup(sp) + [Poll, Poll, Poll, Poll, Close, Close]
  {
  }

  /** A rejected field drops the record's row but the read goes on to the next record, which takes the row number. */
  lemma RejectedRecordLeavesNoRow()
    ensures var sp := SplitParam("t", 0, 0, 2);
      var bad := Record(0, [Field("bad", Opaque("x"))]);
      var accept := (name: string, rowNum: int, value: Value) => name != "bad";
      var r := ReadSplit(sp, 2, [true], [Batch([bad, Rec(1)])], accept);
      && r.outcome == EndReached
      && r.projected == [bad, Rec(1)]
      && r.written == [Rec(1)]
  {
  }
}
