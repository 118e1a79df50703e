/**
  The row projector: the callback the handler hands to the sink's `writeRows`.
  It offers a record's fields to the row builder one at a time and gives up on
  the row at the first field the builder rejects.
 */
module Projector {
  import opened MskTypes

  /** The row builder's admission predicate, `offerValue(name, rowNum, value)`. */
  type Accept = (string, int, Value) -> bool

  /** One call of `offerValue`. */
  datatype Offer = Offer(name: string, rowNum: int, value: Value)

  /** What the callback did: the offers it made, in order, and the rows it reports (0 or 1). */
  datatype Projection = Projection(offered: seq<Offer>, rows: nat)

  function OfferOf(f: Field, rowNum: int): Offer
  {
    Offer(f.name, rowNum, f.value)
  }

  predicate Admits(accept: Accept, o: Offer)
  {
    accept(o.name, o.rowNum, o.value)
  }

  /** Every field of the record is accepted for row `rowNum`. */
  predicate AllAccepted(fields: seq<Field>, rowNum: int, accept: Accept)
  {
    forall i :: 0 <= i < |fields| ==> Admits(accept, OfferOf(fields[i], rowNum))
  }

  /**
    The callback on one record: offer field after field until one is rejected.
    `ProjectRowIffAccepted` states what it reports, `ProjectOffersInOrder` and
    `ProjectStopsAtRejection` which offers it makes.
   */
  function Project(fields: seq<Field>, rowNum: int, accept: Accept): (p: Projection)
    ensures p.rows == 0 || p.rows == 1
    ensures 0 < |p.offered| <= |fields| || (|fields| == 0 && p.offered == [])
  {
    if |fields| == 0 then Projection([], 1)
    else
      var o := OfferOf(fields[0], rowNum);
      if !Admits(accept, o) then Projection([o], 0)
      else
        var rest := Project(fields[1..], rowNum, accept);
        Projection([o] + rest.offered, rest.rows)
  }

  /** The callback reports one row exactly when the row builder accepts every field of the record. */
  lemma {:induction false} ProjectRowIffAccepted(fields: seq<Field>, rowNum: int, accept: Accept)
    ensures Project(fields, rowNum, accept).rows == 1 <==> AllAccepted(fields, rowNum, accept)
  {
    if |fields| > 0 && Admits(accept, OfferOf(fields[0], rowNum)) {
      ProjectRowIffAccepted(fields[1..], rowNum, accept);
      if AllAccepted(fields[1..], rowNum, accept) {
        forall i | 0 <= i < |fields| ensures Admits(accept, OfferOf(fields[i], rowNum)) {
          if i > 0 { assert fields[i] == fields[1..][i - 1]; }
        }
      } else {
        var j :| 0 <= j < |fields[1..]| && !Admits(accept, OfferOf(fields[1..][j], rowNum));
        assert fields[1..][j] == fields[j + 1];
      }
    } else if |fields| > 0 {
      assert !Admits(accept, OfferOf(fields[0], rowNum));
    }
  }

  /** The callback offers the record's fields in order, each for the same row number, and offers all of them when it reports a row. */
  lemma {:induction false} ProjectOffersInOrder(fields: seq<Field>, rowNum: int, accept: Accept)
    ensures var p := Project(fields, rowNum, accept);
      && (forall i :: 0 <= i < |p.offered| ==> p.offered[i] == OfferOf(fields[i], rowNum))
      && (p.rows == 1 ==> |p.offered| == |fields|)
  {
    if |fields| > 0 && Admits(accept, OfferOf(fields[0], rowNum)) {
      var p := Project(fields, rowNum, accept);
      var rest := Project(fields[1..], rowNum, accept);
      ProjectOffersInOrder(fields[1..], rowNum, accept);
      forall i | 0 <= i < |p.offered| ensures p.offered[i] == OfferOf(fields[i], rowNum) {
        if i > 0 {
          assert p.offered[i] == rest.offered[i - 1];
          assert fields[1..][i - 1] == fields[i];
        }
      }
    }
  }

  /** The callback stops at the first rejection: every offer but the last was accepted, and a report of 0 means the last offer was rejected. */
  lemma {:induction false} ProjectStopsAtRejection(fields: seq<Field>, rowNum: int, accept: Accept)
    ensures var p := Project(fields, rowNum, accept);
      && (forall i :: 0 <= i < |p.offered| - 1 ==> Admits(accept, p.offered[i]))
      && (p.rows == 0 ==> |p.offered| > 0 && !Admits(accept, p.offered[|p.offered| - 1]))
  {
    if |fields| > 0 && Admits(accept, OfferOf(fields[0], rowNum)) {
      var p := Project(fields, rowNum, accept);
      var rest := Project(fields[1..], rowNum, accept);
      ProjectStopsAtRejection(fields[1..], rowNum, accept);
      assert p.offered == [OfferOf(fields[0], rowNum)] + rest.offered;
      forall i | 0 <= i < |p.offered| - 1 ensures Admits(accept, p.offered[i]) {
        if i > 0 { assert p.offered[i] == rest.offered[i - 1]; }
      }
    }
  }

  /**
    `BlockSpiller.writeRows` with the projector as its callback: the record
    becomes the next row iff the callback reports 1, which by
    `ProjectRowIffAccepted` is iff the row builder accepts every field.
   */
  function WriteRow(written: seq<Record>, rec: Record, accept: Accept): (after: seq<Record>)
    ensures after == written || after == written + [rec]
    ensures after == written + [rec] <==> Project(rec.fields, |written|, accept).rows == 1
  {
    ProjectRowIffAccepted(rec.fields, |written|, accept);
    if AllAccepted(rec.fields, |written|, accept) then written + [rec] else written
  }

  /** The rows the sink holds after the projector has seen `projected`, in order, starting from an empty sink. */
  function Sink(projected: seq<Record>, accept: Accept): (rows: seq<Record>)
    ensures |rows| <= |projected|
  {
    if |projected| == 0 then []
    else WriteRow(Sink(projected[..|projected| - 1], accept), projected[|projected| - 1], accept)
  }
}
