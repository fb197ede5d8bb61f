/** The verifier raises no false alarm and, inside its window, misses nothing. */
module VerifierLaws {
  import opened Numbers
  import opened Options
  import opened Sequences
  import opened Verifier

  function InWindow(w: Window): Delivery -> bool {
    (d: Delivery) => d.occurredAt.Some? && w.Contains(DayOf(d.occurredAt.value))
  }

  /** The deliveries of the window, as the script selects them. */
  function WindowOf(history: seq<Delivery>, w: Window): seq<Delivery> {
    Filter(history, InWindow(w))
  }

  function StoredPointer(rows: seq<Row>, r: Resource): Option<Row> {
    if r in RowsByResource(rows) then Some(RowsByResource(rows)[r]) else None
  }

  predicate PointsAt(row: Option<Row>, p: Pointer) {
    row.Some? && row.value.lastAt == Some(p.at) && row.value.lastId == Some(p.id)
  }

  /** Every stored pointer is the newest delivery over all history. */
  ghost predicate Current(rows: seq<Row>, history: seq<Delivery>) {
    forall r ::
      && (forall p :: IsNewest(history, r, p) ==> PointsAt(StoredPointer(rows, r), p))
      && ((!exists p :: Points(history, r, p)) && StoredPointer(rows, r).Some?
          ==> StoredPointer(rows, r).value.lastAt.None?)
  }

  lemma WindowPoints(history: seq<Delivery>, w: Window, r: Resource, p: Pointer)
    ensures Points(WindowOf(history, w), r, p) <==> Points(history, r, p) && w.Contains(DayOf(p.at))
  {
    FilterMembers(history, InWindow(w));
    if Points(WindowOf(history, w), r, p) {
      var d :| d in WindowOf(history, w) && PointerOf(d, r) == Some(p);
      assert d in history;
    }
    if Points(history, r, p) && w.Contains(DayOf(p.at)) {
      var d :| d in history && PointerOf(d, r) == Some(p);
      assert d in WindowOf(history, w);
    }
  }

  /** Whatever has a pointer at all has a newest one. */
  lemma {:induction false} NewestExists(ds: seq<Delivery>, r: Resource)
    ensures (exists p :: Points(ds, r, p)) <==> exists p :: IsNewest(ds, r, p)
  {
    if ds != [] {
      var before, last := ds[..|ds| - 1], ds[|ds| - 1];
      assert ds == before + [last];
      NewestExists(before, r);
      hide Points, PointerOf, Newer;
      forall p { PointsStep(before, last, r, p); }
      var latest: map<Resource, Pointer> := map[];
      if q :| IsNewest(before, r, q) {
        latest := map[r := q];
      }
      NewestStep(before, last, r, latest);
    }
  }

  /** A newest pointer whose day is in the window is the window's newest too. */
  lemma NewestInWindow(history: seq<Delivery>, w: Window, r: Resource, p: Pointer)
    requires IsNewest(history, r, p) && w.Contains(DayOf(p.at))
    ensures IsNewest(WindowOf(history, w), r, p)
  {
    forall q { WindowPoints(history, w, r, q); }
  }

  lemma LaterDay(p: Pointer, q: Pointer)
    requires !Newer(p, q)
    ensures DayOf(p.at) <= DayOf(q.at)
  {
    NewerTotal(p, q);
    assert p.at <= q.at;
  }

  /** No false alarms: if every stored pointer is the newest delivery over all history, no
      window of it makes the verifier report anything. */
  lemma NoFalseAlarms(rows: seq<Row>, history: seq<Delivery>, w: Window, m: Mismatch)
    requires Current(rows, history)
    ensures !Reports(m, m.resource, rows, WindowOf(history, w), w)
  {
    hide RowsByResource, Newer, Points;
    var r, ds := m.resource, WindowOf(history, w);
    NewestExists(history, r);
    NewestExists(ds, r);
    forall q { WindowPoints(history, w, r, q); }
    if exists p :: IsNewest(ds, r, p) {
      forall p | IsNewest(ds, r, p) ensures ObservedMismatch(r, p, CountOf(ds, r), StoredPointer(rows, r), w) == None {
        WindowPoints(history, w, r, p);
        var newest :| IsNewest(history, r, newest);
        LaterDay(p, newest);
        if DayOf(newest.at) <= w.toDay {
          NewestInWindow(history, w, r, newest);
          NewestIsUnique(ds, r, p, newest);
        }
      }
    } else if newest :| IsNewest(history, r, newest) {
      assert PointsAt(StoredPointer(rows, r), newest);
      if w.Contains(DayOf(newest.at)) {
        NewestInWindow(history, w, r, newest);
      }
    } else {
      assert StoredPointer(rows, r).Some? ==> StoredPointer(rows, r).value.lastAt.None?;
    }
  }

  /** No misses: when a resource's newest delivery lies in the window and its stored pointer is
      not past the window's end, the resource is reported exactly when the pointer is missing
      or differs. */
  lemma NoMisses(rows: seq<Row>, history: seq<Delivery>, w: Window, r: Resource, p: Pointer)
    requires IsNewest(history, r, p) && w.Contains(DayOf(p.at))
    requires var row := StoredPointer(rows, r);
             row.Some? && row.value.lastAt.Some? ==> DayOf(row.value.lastAt.value) <= w.toDay
    ensures (exists m: Mismatch :: m.resource == r && Reports(m, r, rows, WindowOf(history, w), w))
            <==> !PointsAt(StoredPointer(rows, r), p)
  {
    hide RowsByResource, Newer, Points;
    var ds := WindowOf(history, w);
    NewestInWindow(history, w, r, p);
    NewestExists(ds, r);
    var reported := ObservedMismatch(r, p, CountOf(ds, r), StoredPointer(rows, r), w);
    forall m: Mismatch ensures Reports(m, r, rows, ds, w) <==> reported == Some(m) {
      forall q | IsNewest(ds, r, q) ensures q == p { NewestIsUnique(ds, r, p, q); }
    }
    if reported.Some? {
      assert reported.value.resource == r && Reports(reported.value, r, rows, ds, w);
    }
  }
}
