/** What the comparison reports, in terms of the deliveries and the stored rows. */
module VerifierMeaning {
  import opened Numbers
  import opened Options
  import opened Text
  import opened Sequences
  import opened Verifier
  import opened VerifierLaws

  /** A delivery of the resource `r` with a usable time and identifier. */
  predicate Delivered(ds: seq<Delivery>, r: Resource, at: int, id: string) {
    exists d :: d in ds && d.resource == Some(r) && d.occurredAt == Some(at) && d.deliveryId == Some(id)
  }

  /** The newest one: the latest, and of those the one with the lowest identifier. */
  ghost predicate NewestDelivery(ds: seq<Delivery>, r: Resource, at: int, id: string) {
    && Delivered(ds, r, at, id)
    && forall t, other :: Delivered(ds, r, t, other) ==> t < at || (t == at && (other == id || TextBefore(id, other)))
  }

  /** The row stored last for `r`. */
  predicate StoredLast(rows: seq<Row>, r: Resource, row: Row) {
    exists i :: 0 <= i < |rows| && rows[i] == row && row.resource == r && forall j :: i < j < |rows| ==> rows[j].resource != r
  }

  predicate OnDay(at: int, day: int) {
    86400 * day <= at < 86400 * (day + 1)
  }

  function DeliveriesOf(ds: seq<Delivery>, r: Resource): set<nat> {
    set i: nat | i < |ds| && ds[i].resource == Some(r)
  }

  lemma PointsMean(ds: seq<Delivery>, r: Resource, at: int, id: string)
    ensures Points(ds, r, Pointer(at, id)) <==> Delivered(ds, r, at, id)
  {
    if d :| d in ds && PointerOf(d, r) == Some(Pointer(at, id)) {
      assert Delivered(ds, r, at, id);
    }
    if d :| d in ds && d.resource == Some(r) && d.occurredAt == Some(at) && d.deliveryId == Some(id) {
      assert PointerOf(d, r) == Some(Pointer(at, id));
    }
  }

  lemma NewestMeans(ds: seq<Delivery>, r: Resource, p: Pointer)
    ensures IsNewest(ds, r, p) <==> NewestDelivery(ds, r, p.at, p.id)
  {
    hide Points, Delivered;
    forall at, id ensures Points(ds, r, Pointer(at, id)) <==> Delivered(ds, r, at, id) { PointsMean(ds, r, at, id); }
    assert p == Pointer(p.at, p.id);
    if IsNewest(ds, r, p) {
      forall t, other | Delivered(ds, r, t, other) ensures t < p.at || (t == p.at && (other == p.id || TextBefore(p.id, other))) {
        NewerTotal(p, Pointer(t, other));
      }
    }
    if NewestDelivery(ds, r, p.at, p.id) {
      forall q | Points(ds, r, q) ensures !Newer(q, p) {
        assert q == Pointer(q.at, q.id);
        NewerTotal(p, q);
      }
    }
  }

  lemma StoredNext(rows: seq<Row>, last: Row, r: Resource, row: Row)
    ensures StoredLast(rows + [last], r, row) <==> if last.resource == r then row == last else StoredLast(rows, r, row)
  {
    var all := rows + [last];
    assert all[|rows|] == last;
    if last.resource == r {
      assert StoredLast(all, r, last);
    } else {
      assert forall i :: 0 <= i < |rows| ==> all[i] == rows[i];
      if i :| 0 <= i < |rows| && rows[i] == row && row.resource == r && forall j :: i < j < |rows| ==> rows[j].resource != r {
        assert all[i] == row;
      }
    }
  }

  lemma {:induction false} RowMeans(rows: seq<Row>, r: Resource, row: Row)
    ensures r in RowsByResource(rows) && RowsByResource(rows)[r] == row <==> StoredLast(rows, r, row)
  {
    if rows != [] {
      hide StoredLast;
      var before, last := rows[..|rows| - 1], rows[|rows| - 1];
      RowMeans(before, r, row);
      assert rows == before + [last];
      StoredNext(before, last, r, row);
    }
  }

  lemma {:induction false} CountMeans(ds: seq<Delivery>, r: Resource)
    ensures CountOf(ds, r) == |DeliveriesOf(ds, r)|
  {
    if ds == [] {
      assert DeliveriesOf(ds, r) == {};
    } else {
      var before := ds[..|ds| - 1];
      CountMeans(before, r);
      assert DeliveriesOf(ds, r) == DeliveriesOf(before, r) + if ds[|ds| - 1].resource == Some(r) then {|ds| - 1} else {};
    }
  }

  lemma DayMeans(at: int, day: int)
    ensures DayOf(at) == day <==> OnDay(at, day)
  {
  }

  // ----- what is reported -----

  /** A resource was delivered but has no stored row. */
  predicate MissingReport(m: Mismatch, at: int, id: string, count: nat) {
    && m.reason == AggregateMissing && OnDay(at, m.day) && m.deliveryCount == Some(count)
    && m.idDiff == Some(FieldDiff(None, Some(id))) && m.timeDiff == Some(FieldDiff(None, Some(at))) && m.timeDelta == None
  }

  /** Its row is not ahead of the window and points elsewhere; each side of each difference is named,
      and the delta is the canonical time less the stored one. */
  predicate PointerReport(m: Mismatch, at: int, id: string, row: Row, count: nat, w: Window) {
    && m.reason == PointerMismatch && OnDay(at, m.day) && m.deliveryCount == Some(count)
    && (row.lastAt.Some? ==> row.lastAt.value < 86400 * (w.toDay + 1))
    && (row.lastId != Some(id) || row.lastAt != Some(at))
    && m.idDiff == (if row.lastId != Some(id) then Some(FieldDiff(row.lastId, Some(id))) else None)
    && m.timeDiff == (if row.lastAt != Some(at) then Some(FieldDiff(row.lastAt, Some(at))) else None)
    && m.timeDelta == if row.lastAt.Some? && row.lastAt != Some(at) then Some(at - row.lastAt.value) else None
  }

  /** A row points into the window, but nothing usable was delivered. */
  predicate UnbackedReport(m: Mismatch, row: Row, w: Window) {
    && m.reason == NoBackingDelivery && row.lastAt.Some?
    && 86400 * w.fromDay <= row.lastAt.value < 86400 * (w.toDay + 1) && OnDay(row.lastAt.value, m.day)
    && m.idDiff == Some(FieldDiff(row.lastId, None)) && m.timeDiff == Some(FieldDiff(row.lastAt, None))
    && m.timeDelta == None && m.deliveryCount == None
  }

  /** The three kinds of mismatch, and when each is reported. */
  ghost predicate Reported(m: Mismatch, rows: seq<Row>, ds: seq<Delivery>, w: Window) {
    var r := m.resource;
    || (exists at, id :: NewestDelivery(ds, r, at, id)
                         && if exists row :: StoredLast(rows, r, row)
                            then exists row :: StoredLast(rows, r, row) && PointerReport(m, at, id, row, |DeliveriesOf(ds, r)|, w)
                            else MissingReport(m, at, id, |DeliveriesOf(ds, r)|))
    || ((forall at, id :: !Delivered(ds, r, at, id))
        && exists row :: StoredLast(rows, r, row) && UnbackedReport(m, row, w))
  }

  lemma ObservedMeans(m: Mismatch, p: Pointer, count: nat, row: Option<Row>, w: Window)
    ensures ObservedMismatch(m.resource, p, count, row, w) == Some(m)
            <==> if row.Some? then PointerReport(m, p.at, p.id, row.value, count, w) else MissingReport(m, p.at, p.id, count)
  {
    DayMeans(p.at, m.day);
    assert m == Mismatch(m.resource, m.day, m.reason, m.idDiff, m.timeDiff, m.timeDelta, m.deliveryCount);
    if row.Some? && row.value.lastAt.Some? {
      assert DayOf(row.value.lastAt.value) > w.toDay <==> row.value.lastAt.value >= 86400 * (w.toDay + 1);
    }
  }

  lemma UnbackedMeans(m: Mismatch, row: Row, w: Window)
    ensures UnbackedMismatch(m.resource, row, w) == Some(m) <==> UnbackedReport(m, row, w)
  {
    assert m == Mismatch(m.resource, m.day, m.reason, m.idDiff, m.timeDiff, m.timeDelta, m.deliveryCount);
    if row.lastAt.Some? {
      DayMeans(row.lastAt.value, m.day);
      assert w.Contains(DayOf(row.lastAt.value))
             <==> 86400 * w.fromDay <= row.lastAt.value < 86400 * (w.toDay + 1);
    }
  }

  lemma StoredRow(rows: seq<Row>, r: Resource)
    ensures r in RowsByResource(rows) <==> exists row :: StoredLast(rows, r, row)
    ensures forall row :: StoredLast(rows, r, row) <==> r in RowsByResource(rows) && RowsByResource(rows)[r] == row
  {
    forall row ensures r in RowsByResource(rows) && RowsByResource(rows)[r] == row <==> StoredLast(rows, r, row) {
      RowMeans(rows, r, row);
    }
    if r in RowsByResource(rows) {
      assert StoredLast(rows, r, RowsByResource(rows)[r]);
    }
  }

  /** What a comparison may report is exactly what these say. */
  lemma ReportsMean(m: Mismatch, rows: seq<Row>, ds: seq<Delivery>, w: Window)
    ensures Reports(m, m.resource, rows, ds, w) <==> Reported(m, rows, ds, w)
  {
    hide IsNewest, NewestDelivery, Points, Delivered, StoredLast, RowsByResource, ObservedMismatch, UnbackedMismatch;
    hide PointerReport, MissingReport, UnbackedReport, CountOf, DeliveriesOf;
    var r := m.resource;
    StoredRow(rows, r);
    CountMeans(ds, r);
    var row := if r in RowsByResource(rows) then Some(RowsByResource(rows)[r]) else None;
    forall p ensures IsNewest(ds, r, p) <==> NewestDelivery(ds, r, p.at, p.id) { NewestMeans(ds, r, p); }
    forall p ensures ObservedMismatch(r, p, CountOf(ds, r), row, w) == Some(m)
                     <==> if row.Some? then PointerReport(m, p.at, p.id, row.value, CountOf(ds, r), w)
                          else MissingReport(m, p.at, p.id, CountOf(ds, r)) {
      ObservedMeans(m, p, CountOf(ds, r), row, w);
    }
    if at, id :| NewestDelivery(ds, r, at, id) {
      assert Pointer(at, id).at == at && Pointer(at, id).id == id;
    }
    forall at, id ensures Points(ds, r, Pointer(at, id)) <==> Delivered(ds, r, at, id) { PointsMean(ds, r, at, id); }
    assert (exists p :: Points(ds, r, p)) <==> exists at, id :: Delivered(ds, r, at, id) by {
      if p :| Points(ds, r, p) {
        assert p == Pointer(p.at, p.id);
      }
    }
    if row.Some? {
      UnbackedMeans(m, row.value, w);
    }
    ReportsByPointer(m, rows, ds, w, row);
  }

  lemma ReportsByPointer(m: Mismatch, rows: seq<Row>, ds: seq<Delivery>, w: Window, row: Option<Row>)
    requires row == if m.resource in RowsByResource(rows) then Some(RowsByResource(rows)[m.resource]) else None
    requires forall p :: IsNewest(ds, m.resource, p) <==> NewestDelivery(ds, m.resource, p.at, p.id)
    ensures (exists p :: IsNewest(ds, m.resource, p) && ObservedMismatch(m.resource, p, CountOf(ds, m.resource), row, w) == Some(m))
            <==> exists at, id :: NewestDelivery(ds, m.resource, at, id)
                                  && ObservedMismatch(m.resource, Pointer(at, id), CountOf(ds, m.resource), row, w) == Some(m)
  {
    hide IsNewest, NewestDelivery, ObservedMismatch, CountOf, RowsByResource;
    if p :| IsNewest(ds, m.resource, p) && ObservedMismatch(m.resource, p, CountOf(ds, m.resource), row, w) == Some(m) {
      assert p == Pointer(p.at, p.id);
    }
    if at, id :| NewestDelivery(ds, m.resource, at, id)
                 && ObservedMismatch(m.resource, Pointer(at, id), CountOf(ds, m.resource), row, w) == Some(m) {
      assert IsNewest(ds, m.resource, Pointer(at, id));
    }
  }

  // ----- the window -----

  /** The deliveries a window selects: those that occurred on its days, first and last included. */
  lemma WindowMeans(history: seq<Delivery>, w: Window, d: Delivery)
    ensures d in WindowOf(history, w) <==>
              && d in history && d.occurredAt.Some?
              && 86400 * w.fromDay <= d.occurredAt.value < 86400 * (w.toDay + 1)
  {
    FilterMembers(history, InWindow(w));
    if d.occurredAt.Some? {
      assert w.Contains(DayOf(d.occurredAt.value))
             <==> 86400 * w.fromDay <= d.occurredAt.value < 86400 * (w.toDay + 1);
    }
  }
}
