/** The reporting-aggregate verifier: the newest delivery per resource, and the comparison of
    the stored pointers against a window of deliveries. */
module Verifier {
  import opened Numbers
  import opened Options
  import opened Text

  datatype Resource = Resource(provider: string, repositoryUrl: string, resourceType: string, resourceNumber: string)

  /** A delivery, its resource identity already read from the payload (absent if unusable). */
  datatype Delivery = Delivery(resource: Option<Resource>, occurredAt: Option<int>, deliveryId: Option<string>)

  datatype Pointer = Pointer(at: int, id: string)

  /** A stored aggregate row and its pointer columns. */
  datatype Row = Row(resource: Resource, lastAt: Option<int>, lastId: Option<string>)

  /** An inclusive window of UTC days. */
  datatype Window = Window(fromDay: int, toDay: int)
  {
    predicate Contains(day: int) {
      fromDay <= day <= toDay
    }
  }

  // ----- the newest delivery per resource -----

  /** `p` is newer: later, or as late with the lower identifier. */
  predicate Newer(p: Pointer, q: Pointer) {
    p.at > q.at || (p.at == q.at && TextBefore(p.id, q.id))
  }

  /** The pointer a delivery is worth for the resource `r`. */
  function PointerOf(d: Delivery, r: Resource): Option<Pointer> {
    if d.resource == Some(r) && d.occurredAt.Some? && d.deliveryId.Some?
    then Some(Pointer(d.occurredAt.value, d.deliveryId.value)) else None
  }

  predicate Points(ds: seq<Delivery>, r: Resource, p: Pointer) {
    exists d :: d in ds && PointerOf(d, r) == Some(p)
  }

  /** `p` is the newest pointer of `r`: delivered, and none delivered is newer. */
  ghost predicate IsNewest(ds: seq<Delivery>, r: Resource, p: Pointer) {
    Points(ds, r, p) && forall q :: Points(ds, r, q) ==> !Newer(q, p)
  }

  lemma NewerTotal(p: Pointer, q: Pointer)
    ensures p == q || Newer(p, q) || Newer(q, p)
    ensures !(Newer(p, q) && Newer(q, p))
  {
    TextLeTotal(p.id, q.id);
    if TextLe(p.id, q.id) && TextLe(q.id, p.id) {
      TextLeAntisymmetric(p.id, q.id);
    }
  }

  lemma NewerTransitive(p: Pointer, q: Pointer, r: Pointer)
    requires Newer(p, q) && Newer(q, r)
    ensures Newer(p, r)
  {
    if p.at == q.at && q.at == r.at {
      TextLeTransitive(p.id, q.id, r.id);
      if p.id == r.id {
        TextLeAntisymmetric(p.id, q.id);
      }
    }
  }

  /** There is at most one newest pointer. */
  lemma NewestIsUnique(ds: seq<Delivery>, r: Resource, p: Pointer, q: Pointer)
    requires IsNewest(ds, r, p) && IsNewest(ds, r, q)
    ensures p == q
  {
    NewerTotal(p, q);
  }

  function CountOf(ds: seq<Delivery>, r: Resource): nat {
    if ds == [] then 0
    else CountOf(ds[..|ds| - 1], r) + if ds[|ds| - 1].resource == Some(r) then 1 else 0
  }

  /** The newest pointer of every resource that has one. */
  ghost predicate IsLatest(latest: map<Resource, Pointer>, ds: seq<Delivery>) {
    forall r :: if r in latest then IsNewest(ds, r, latest[r]) else !exists p :: Points(ds, r, p)
  }

  ghost predicate IsCounts(counts: map<Resource, nat>, ds: seq<Delivery>) {
    forall r :: (if r in counts then counts[r] else 0) == CountOf(ds, r)
  }

  lemma PointsStep(ds: seq<Delivery>, d: Delivery, r: Resource, p: Pointer)
    ensures Points(ds + [d], r, p) <==> Points(ds, r, p) || PointerOf(d, r) == Some(p)
  {
    if Points(ds, r, p) {
      var e :| e in ds && PointerOf(e, r) == Some(p);
      assert e in ds + [d];
    }
    assert d in ds + [d];
  }

  lemma NewestStep(ds: seq<Delivery>, d: Delivery, r: Resource, latest: map<Resource, Pointer>)
    requires if r in latest then IsNewest(ds, r, latest[r]) else !exists p :: Points(ds, r, p)
    ensures var p := PointerOf(d, r);
            if p.None? then (if r in latest then IsNewest(ds + [d], r, latest[r]) else !exists q :: Points(ds + [d], r, q))
            else if r !in latest || Newer(p.value, latest[r]) then IsNewest(ds + [d], r, p.value)
            else IsNewest(ds + [d], r, latest[r])
  {
    hide Points, PointerOf, Newer;
    forall p { PointsStep(ds, d, r, p); }
    if PointerOf(d, r).Some? {
      var p := PointerOf(d, r).value;
      NewerTotal(p, p);
      if r in latest && Newer(p, latest[r]) {
        forall q | Points(ds, r, q) ensures !Newer(q, p) {
          if Newer(q, p) {
            NewerTransitive(q, p, latest[r]);
          }
        }
      }
    }
  }

  /** `canonical_latest_by_resource`. */
  method CanonicalLatest(ds: seq<Delivery>) returns (latest: map<Resource, Pointer>, counts: map<Resource, nat>)
    ensures IsLatest(latest, ds) && IsCounts(counts, ds)
  {
    latest, counts := map[], map[];
    for i := 0 to |ds|
      invariant IsLatest(latest, ds[..i]) && IsCounts(counts, ds[..i])
    {
      var d := ds[i];
      assert ds[..i + 1] == ds[..i] + [d];
      LatestStep(latest, counts, ds[..i], d);
      hide IsLatest, IsCounts;
      if d.resource.None? {
        continue;
      }
      var key := d.resource.value;
      counts := counts[key := (if key in counts then counts[key] else 0) + 1];
      if d.occurredAt.None? || d.deliveryId.None? {
        continue;
      }
      var p := Pointer(d.occurredAt.value, d.deliveryId.value);
      if key !in latest || p.at > latest[key].at || (p.at == latest[key].at && TextBefore(p.id, latest[key].id)) {
        latest := latest[key := p];
      }
    }
    assert ds[..|ds|] == ds;
  }

  lemma LatestStep(latest: map<Resource, Pointer>, counts: map<Resource, nat>, ds: seq<Delivery>, d: Delivery)
    requires IsLatest(latest, ds) && IsCounts(counts, ds)
    ensures if d.resource.None? then IsLatest(latest, ds + [d]) && IsCounts(counts, ds + [d])
            else
              var key := d.resource.value;
              && IsCounts(counts[key := (if key in counts then counts[key] else 0) + 1], ds + [d])
              && var p := PointerOf(d, key);
                 if p.Some? && (key !in latest || Newer(p.value, latest[key])) then IsLatest(latest[key := p.value], ds + [d])
                 else IsLatest(latest, ds + [d])
  {
    forall r ensures CountOf(ds + [d], r) == CountOf(ds, r) + if d.resource == Some(r) then 1 else 0 {
      assert (ds + [d])[..|ds|] == ds;
    }
    hide IsNewest, Newer, Points;
    forall r { NewestStep(ds, d, r, latest); }
  }

  // ----- the comparison -----

  datatype Reason = AggregateMissing | PointerMismatch | NoBackingDelivery

  datatype FieldDiff<T> = FieldDiff(rollup: Option<T>, canonical: Option<T>)

  datatype Mismatch = Mismatch(
    resource: Resource, day: int, reason: Reason, idDiff: Option<FieldDiff<string>>, timeDiff: Option<FieldDiff<int>>,
    timeDelta: Option<int>, deliveryCount: Option<nat>)

  /** The last stored row of every resource. */
  function RowsByResource(rows: seq<Row>): map<Resource, Row> {
    if rows == [] then map[]
    else RowsByResource(rows[..|rows| - 1])[rows[|rows| - 1].resource := rows[|rows| - 1]]
  }

  /** What the pass over the observed resources reports of `r`. */
  function ObservedMismatch(r: Resource, p: Pointer, count: nat, row: Option<Row>, w: Window): Option<Mismatch> {
    if row.None? then
      Some(Mismatch(r, DayOf(p.at), AggregateMissing, Some(FieldDiff(None, Some(p.id))), Some(FieldDiff(None, Some(p.at))),
                    None, Some(count)))
    else if row.value.lastAt.Some? && DayOf(row.value.lastAt.value) > w.toDay then None
    else
      var idDiff := if row.value.lastId == Some(p.id) then None else Some(FieldDiff(row.value.lastId, Some(p.id)));
      var timeDiff := if row.value.lastAt == Some(p.at) then None else Some(FieldDiff(row.value.lastAt, Some(p.at)));
      var delta := if timeDiff.Some? && row.value.lastAt.Some? then Some(p.at - row.value.lastAt.value) else None;
      if idDiff.None? && timeDiff.None? then None
      else Some(Mismatch(r, DayOf(p.at), PointerMismatch, idDiff, timeDiff, delta, Some(count)))
  }

  /** What the pass over the stored rows reports of a resource nobody observed. */
  function UnbackedMismatch(r: Resource, row: Row, w: Window): Option<Mismatch> {
    if row.lastAt.None? || !w.Contains(DayOf(row.lastAt.value)) then None
    else Some(Mismatch(r, DayOf(row.lastAt.value), NoBackingDelivery, Some(FieldDiff(row.lastId, None)),
                       Some(FieldDiff(row.lastAt, None)), None, None))
  }

  /** Everything a comparison may report of `r`, from the deliveries and rows it was given. */
  ghost predicate Reports(m: Mismatch, r: Resource, rows: seq<Row>, ds: seq<Delivery>, w: Window) {
    var byResource := RowsByResource(rows);
    var row := if r in byResource then Some(byResource[r]) else None;
    || (exists p :: IsNewest(ds, r, p) && ObservedMismatch(r, p, CountOf(ds, r), row, w) == Some(m))
    || ((!exists p :: Points(ds, r, p)) && row.Some? && UnbackedMismatch(r, row.value, w) == Some(m))
  }

  method Compare(rows: seq<Row>, ds: seq<Delivery>, w: Window) returns (mismatches: seq<Mismatch>)
    ensures forall m :: m in mismatches <==> Reports(m, m.resource, rows, ds, w)
    ensures forall i, j :: 0 <= i < j < |mismatches| ==> mismatches[i].resource != mismatches[j].resource
  {
    var latest, counts := CanonicalLatest(ds);
    var aggregates: map<Resource, Row> := map[];
    for i := 0 to |rows|
      invariant aggregates == RowsByResource(rows[..i])
    {
      assert rows[..i + 1][..i] == rows[..i];
      aggregates := aggregates[rows[i].resource := rows[i]];
    }
    assert rows[..|rows|] == rows;
    mismatches := ObservedPass(latest, counts, aggregates, w);
    var unbacked := UnbackedPass(latest, aggregates, w);
    Combine(mismatches, unbacked, latest, counts, rows, ds, w);
    mismatches := mismatches + unbacked;
  }

  ghost predicate Listed(ms: seq<Mismatch>, keys: set<Resource>, f: Resource -> Option<Mismatch>) {
    && (forall m :: m in ms <==> m.resource in keys && f(m.resource) == Some(m))
    && (forall i, j :: 0 <= i < j < |ms| ==> ms[i].resource != ms[j].resource)
  }

  lemma ListNext(ms: seq<Mismatch>, keys: set<Resource>, r: Resource, f: Resource -> Option<Mismatch>)
    requires Listed(ms, keys, f) && r !in keys
    requires f(r).Some? ==> f(r).value.resource == r
    ensures Listed(if f(r).Some? then ms + [f(r).value] else ms, keys + {r}, f)
  {
    if f(r).Some? {
      forall i | 0 <= i < |ms| ensures ms[i].resource != r {
        assert ms[i] in ms;
      }
    }
  }

  function RowOf(aggregates: map<Resource, Row>, r: Resource): Option<Row> {
    if r in aggregates then Some(aggregates[r]) else None
  }

  function Observed(latest: map<Resource, Pointer>, counts: map<Resource, nat>, aggregates: map<Resource, Row>, w: Window)
    : Resource -> Option<Mismatch>
  {
    (r: Resource) => if r in latest
                     then ObservedMismatch(r, latest[r], if r in counts then counts[r] else 0, RowOf(aggregates, r), w)
                     else None
  }

  function Unbacked(latest: map<Resource, Pointer>, aggregates: map<Resource, Row>, w: Window)
    : Resource -> Option<Mismatch>
  {
    (r: Resource) => if r in aggregates && r !in latest then UnbackedMismatch(r, aggregates[r], w) else None
  }

  /** The observed identities, in any order. */
  method ObservedPass(latest: map<Resource, Pointer>, counts: map<Resource, nat>, aggregates: map<Resource, Row>, w: Window)
    returns (ms: seq<Mismatch>)
    ensures Listed(ms, latest.Keys, Observed(latest, counts, aggregates, w))
  {
    ghost var f := Observed(latest, counts, aggregates, w);
    ms := [];
    var todo := latest.Keys;
    while todo != {}
      invariant todo <= latest.Keys
      invariant Listed(ms, latest.Keys - todo, f)
      decreases todo
    {
      hide Listed;
      var r :| r in todo;
      ListNext(ms, latest.Keys - todo, r, f);
      assert latest.Keys - todo + {r} == latest.Keys - (todo - {r});
      todo := todo - {r};
      var p, count := latest[r], if r in counts then counts[r] else 0;
      if r !in aggregates {
        ms := ms + [Mismatch(r, DayOf(p.at), AggregateMissing, Some(FieldDiff(None, Some(p.id))),
                             Some(FieldDiff(None, Some(p.at))), None, Some(count))];
        continue;
      }
      var row := aggregates[r];
      if row.lastAt.Some? && DayOf(row.lastAt.value) > w.toDay {
        continue;
      }
      var idDiff, timeDiff, delta := None, None, None;
      if row.lastId != Some(p.id) {
        idDiff := Some(FieldDiff(row.lastId, Some(p.id)));
      }
      if row.lastAt != Some(p.at) {
        timeDiff := Some(FieldDiff(row.lastAt, Some(p.at)));
        delta := if row.lastAt.Some? then Some(p.at - row.lastAt.value) else None;
      }
      if idDiff.Some? || timeDiff.Some? {
        ms := ms + [Mismatch(r, DayOf(p.at), PointerMismatch, idDiff, timeDiff, delta, Some(count))];
      }
    }
    assert latest.Keys - {} == latest.Keys;
  }

  /** The stored rows nobody observed, in any order. */
  method UnbackedPass(latest: map<Resource, Pointer>, aggregates: map<Resource, Row>, w: Window)
    returns (ms: seq<Mismatch>)
    ensures Listed(ms, aggregates.Keys, Unbacked(latest, aggregates, w))
  {
    ghost var f := Unbacked(latest, aggregates, w);
    ms := [];
    var todo := aggregates.Keys;
    while todo != {}
      invariant todo <= aggregates.Keys
      invariant Listed(ms, aggregates.Keys - todo, f)
      decreases todo
    {
      hide Listed;
      var r :| r in todo;
      ListNext(ms, aggregates.Keys - todo, r, f);
      assert aggregates.Keys - todo + {r} == aggregates.Keys - (todo - {r});
      todo := todo - {r};
      if r in latest {
        continue;
      }
      var row := aggregates[r];
      if row.lastAt.None? {
        continue;
      }
      var day := DayOf(row.lastAt.value);
      if !w.Contains(day) {
        continue;
      }
      ms := ms + [Mismatch(r, day, NoBackingDelivery, Some(FieldDiff(row.lastId, None)), Some(FieldDiff(row.lastAt, None)),
                           None, None)];
    }
    assert aggregates.Keys - {} == aggregates.Keys;
  }

  lemma Combine(a: seq<Mismatch>, b: seq<Mismatch>, latest: map<Resource, Pointer>, counts: map<Resource, nat>,
                rows: seq<Row>, ds: seq<Delivery>, w: Window)
    requires IsLatest(latest, ds) && IsCounts(counts, ds)
    requires Listed(a, latest.Keys, Observed(latest, counts, RowsByResource(rows), w))
    requires Listed(b, RowsByResource(rows).Keys, Unbacked(latest, RowsByResource(rows), w))
    ensures forall m :: m in a + b <==> Reports(m, m.resource, rows, ds, w)
    ensures forall i, j :: 0 <= i < j < |a + b| ==> (a + b)[i].resource != (a + b)[j].resource
  {
    forall m ensures m in a + b <==> Reports(m, m.resource, rows, ds, w) {
      ReportsOf(m, latest, counts, rows, ds, w);
    }
    forall i, j | 0 <= i < j < |a + b| ensures (a + b)[i].resource != (a + b)[j].resource {
      if i < |a| && |a| <= j {
        assert a[i] in a && b[j - |a|] in b;
      }
    }
  }

  lemma ReportsOf(m: Mismatch, latest: map<Resource, Pointer>, counts: map<Resource, nat>,
                  rows: seq<Row>, ds: seq<Delivery>, w: Window)
    requires IsLatest(latest, ds) && IsCounts(counts, ds)
    ensures Reports(m, m.resource, rows, ds, w) <==>
              || Observed(latest, counts, RowsByResource(rows), w)(m.resource) == Some(m)
              || Unbacked(latest, RowsByResource(rows), w)(m.resource) == Some(m)
  {
    hide RowsByResource, ObservedMismatch, UnbackedMismatch;
    var r := m.resource;
    if r in latest {
      forall p | IsNewest(ds, r, p) ensures p == latest[r] { NewestIsUnique(ds, r, p, latest[r]); }
    } else {
      forall p ensures !IsNewest(ds, r, p) {}
    }
  }
}
