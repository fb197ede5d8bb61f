/** Transcript retention: bounded, guarded deletes over three tables whose foreign keys do
    not cascade. */
module Retention {
  import opened Options

  type Id = int

  datatype ToolCall = ToolCall(partId: Id, messageId: Option<Id>, createdAt: Option<int>)
  datatype Part = Part(messageId: Option<Id>, createdAt: Option<int>)
  datatype Message = Message(createdAt: Option<int>)

  datatype Table = ToolCalls | Parts | Messages

  /** Children first. */
  const TABLES: seq<Table> := [ToolCalls, Parts, Messages]

  datatype Tables = Tables(
    toolCalls: map<Id, ToolCall>, parts: map<Id, Part>, messages: map<Id, Message>)
  {
    function Keys(t: Table): set<Id> {
      match t
      case ToolCalls => toolCalls.Keys
      case Parts => parts.Keys
      case Messages => messages.Keys
    }

    function Remove(t: Table, ids: set<Id>): Tables {
      match t
      case ToolCalls => this.(toolCalls := toolCalls - ids)
      case Parts => this.(parts := parts - ids)
      case Messages => this.(messages := messages - ids)
    }

    /** The foreign keys hold. */
    ghost predicate ReferencesIntact() {
      && (forall c :: c in toolCalls ==>
            && toolCalls[c].partId in parts
            && (toolCalls[c].messageId.Some? ==> toolCalls[c].messageId.value in messages))
      && (forall p :: p in parts && parts[p].messageId.Some? ==> parts[p].messageId.value in messages)
    }
  }

  /** The retention window of each table. */
  datatype Windows = Windows(toolCalls: int, parts: int, messages: int)
  {
    function Cutoff(t: Table, now: int): int {
      match t
      case ToolCalls => now - toolCalls
      case Parts => now - parts
      case Messages => now - messages
    }
  }

  /** Strictly older than the cutoff; a row without a source time never is. */
  predicate Old(createdAt: Option<int>, cutoff: int) {
    createdAt.Some? && createdAt.value < cutoff
  }

  predicate CallOf(db: Tables, c: Id, p: Id) {
    c in db.toolCalls && db.toolCalls[c].partId == p
  }

  predicate CallIn(db: Tables, c: Id, m: Id) {
    c in db.toolCalls && db.toolCalls[c].messageId == Some(m)
  }

  predicate PartIn(db: Tables, p: Id, m: Id) {
    p in db.parts && db.parts[p].messageId == Some(m)
  }

  /** The rows the count and the delete statement of a table range over: old, and without a
      child left. */
  function Eligible(db: Tables, t: Table, cutoff: int): set<Id> {
    match t
    case ToolCalls =>
      set c | c in db.toolCalls && Old(db.toolCalls[c].createdAt, cutoff)
    case Parts =>
      set p | p in db.parts && Old(db.parts[p].createdAt, cutoff)
              && !exists c :: c in db.toolCalls && CallOf(db, c, p)
    case Messages =>
      set m | m in db.messages && Old(db.messages[m].createdAt, cutoff)
              && (!exists p :: p in db.parts && PartIn(db, p, m))
              && !exists c :: c in db.toolCalls && CallIn(db, c, m)
  }

  // ----- where every unlimited run ends -----

  predicate PartExpires(db: Tables, p: Id, now: int, w: Windows)
    requires p in db.parts
  {
    && Old(db.parts[p].createdAt, w.Cutoff(Parts, now))
    && forall c :: c in db.toolCalls && CallOf(db, c, p) ==> Old(db.toolCalls[c].createdAt, w.Cutoff(ToolCalls, now))
  }

  predicate MessageExpires(db: Tables, m: Id, now: int, w: Windows)
    requires m in db.messages
  {
    && Old(db.messages[m].createdAt, w.Cutoff(Messages, now))
    && (forall p :: p in db.parts && PartIn(db, p, m) ==> PartExpires(db, p, now, w))
    && (forall c :: c in db.toolCalls && CallIn(db, c, m) ==> Old(db.toolCalls[c].createdAt, w.Cutoff(ToolCalls, now)))
  }

  /** The rows of each table that a complete run removes. */
  function Expired(db: Tables, t: Table, now: int, w: Windows): set<Id> {
    match t
    case ToolCalls => set c | c in db.toolCalls && Old(db.toolCalls[c].createdAt, w.Cutoff(ToolCalls, now))
    case Parts => set p | p in db.parts && PartExpires(db, p, now, w)
    case Messages => set m | m in db.messages && MessageExpires(db, m, now, w)
  }

  function Purged(db: Tables, now: int, w: Windows): Tables {
    Tables(db.toolCalls - Expired(db, ToolCalls, now, w),
           db.parts - Expired(db, Parts, now, w),
           db.messages - Expired(db, Messages, now, w))
  }

  // ----- batches -----

  /** One bounded delete statement: `LIMIT` may pick any of the eligible rows. */
  datatype Batch = Batch(table: Table, now: int, ids: set<Id>)

  ghost predicate Allowed(db: Tables, b: Batch, w: Windows) {
    b.ids <= Eligible(db, b.table, w.Cutoff(b.table, b.now))
  }

  ghost function AfterBatches(db: Tables, bs: seq<Batch>): Tables {
    if bs == [] then db else AfterBatches(db, bs[..|bs| - 1]).Remove(bs[|bs| - 1].table, bs[|bs| - 1].ids)
  }

  ghost predicate AllAllowed(db: Tables, bs: seq<Batch>, w: Windows) {
    forall i :: 0 <= i < |bs| ==> Allowed(AfterBatches(db, bs[..i]), bs[i], w)
  }

  /** No surviving row ever references a deleted one. */
  lemma BatchKeepsReferences(db: Tables, b: Batch, w: Windows)
    requires db.ReferencesIntact() && Allowed(db, b, w)
    ensures db.Remove(b.table, b.ids).ReferencesIntact()
  {
    match b.table
    case ToolCalls =>
    case Parts =>
      forall c | c in db.toolCalls ensures db.toolCalls[c].partId !in b.ids {
        assert CallOf(db, c, db.toolCalls[c].partId);
      }
    case Messages =>
      forall c | c in db.toolCalls && db.toolCalls[c].messageId.Some?
        ensures db.toolCalls[c].messageId.value !in b.ids {
        assert CallIn(db, c, db.toolCalls[c].messageId.value);
      }
      forall p | p in db.parts && db.parts[p].messageId.Some?
        ensures db.parts[p].messageId.value !in b.ids {
        assert PartIn(db, p, db.parts[p].messageId.value);
      }
  }

  lemma {:induction false} BatchesKeepReferences(db: Tables, bs: seq<Batch>, w: Windows)
    requires db.ReferencesIntact() && AllAllowed(db, bs, w)
    ensures AfterBatches(db, bs).ReferencesIntact()
  {
    if bs != [] {
      var before := bs[..|bs| - 1];
      AllowedPrefix(db, bs, w);
      BatchesKeepReferences(db, before, w);
      BatchKeepsReferences(AfterBatches(db, before), bs[|bs| - 1], w);
    }
  }

  lemma AllowedPrefix(db: Tables, bs: seq<Batch>, w: Windows)
    requires bs != [] && AllAllowed(db, bs, w)
    ensures AllAllowed(db, bs[..|bs| - 1], w)
    ensures Allowed(AfterBatches(db, bs[..|bs| - 1]), bs[|bs| - 1], w)
  {
    hide Allowed;
    var before := bs[..|bs| - 1];
    forall i | 0 <= i < |before| ensures Allowed(AfterBatches(db, before[..i]), before[i], w) {
      assert before[..i] == bs[..i];
      assert Allowed(AfterBatches(db, bs[..i]), bs[i], w);
    }
  }

  /** A batch at an earlier time removes only rows a later complete run removes anyway. */
  lemma BatchIsExpired(db: Tables, b: Batch, now: int, w: Windows)
    requires Allowed(db, b, w) && b.now <= now
    ensures b.ids <= Expired(db, b.table, now, w)
  {
    forall id | id in b.ids ensures id in Expired(db, b.table, now, w) {
      match b.table
      case ToolCalls =>
      case Parts =>
        forall c | c in db.toolCalls && CallOf(db, c, id) ensures false {}
      case Messages =>
        forall p | p in db.parts && PartIn(db, p, id) ensures false {}
        forall c | c in db.toolCalls && CallIn(db, c, id) ensures false {}
    }
  }

  lemma ExpiredAfterBatch(db: Tables, b: Batch, t: Table, now: int, w: Windows)
    requires Allowed(db, b, w) && b.now <= now
    ensures Expired(db.Remove(b.table, b.ids), t, now, w)
            == Expired(db, t, now, w) - (if t == b.table then b.ids else {})
  {
    BatchIsExpired(db, b, now, w);
    var after := db.Remove(b.table, b.ids);
    forall p | p in after.parts ensures PartExpires(after, p, now, w) == PartExpires(db, p, now, w) {
      PartExpiresAfterBatch(db, b, p, now, w);
    }
    forall m | m in after.messages ensures MessageExpires(after, m, now, w) == MessageExpires(db, m, now, w) {
      MessageExpiresAfterBatch(db, b, m, now, w);
    }
  }

  lemma PartExpiresAfterBatch(db: Tables, b: Batch, p: Id, now: int, w: Windows)
    requires b.ids <= Expired(db, b.table, now, w)
    requires p in db.Remove(b.table, b.ids).parts
    ensures PartExpires(db.Remove(b.table, b.ids), p, now, w) == PartExpires(db, p, now, w)
  {
    var after := db.Remove(b.table, b.ids);
    forall c | c in db.toolCalls && CallOf(db, c, p)
      ensures Old(db.toolCalls[c].createdAt, w.Cutoff(ToolCalls, now)) || (c in after.toolCalls && CallOf(after, c, p)) {}
    forall c | c in after.toolCalls && CallOf(after, c, p) ensures c in db.toolCalls && CallOf(db, c, p) {}
  }

  lemma MessageExpiresAfterBatch(db: Tables, b: Batch, m: Id, now: int, w: Windows)
    requires b.ids <= Expired(db, b.table, now, w)
    requires m in db.Remove(b.table, b.ids).messages
    ensures MessageExpires(db.Remove(b.table, b.ids), m, now, w) == MessageExpires(db, m, now, w)
  {
    hide PartExpires;
    var after := db.Remove(b.table, b.ids);
    forall p | p in after.parts ensures PartExpires(after, p, now, w) == PartExpires(db, p, now, w) {
      PartExpiresAfterBatch(db, b, p, now, w);
    }
    forall p | p in db.parts && PartIn(db, p, m)
      ensures PartExpires(db, p, now, w) || (p in after.parts && PartIn(after, p, m)) {}
    forall c | c in db.toolCalls && CallIn(db, c, m)
      ensures Old(db.toolCalls[c].createdAt, w.Cutoff(ToolCalls, now)) || (c in after.toolCalls && CallIn(after, c, m)) {}
    forall p | p in after.parts && PartIn(after, p, m) ensures p in db.parts && PartIn(db, p, m) {}
    forall c | c in after.toolCalls && CallIn(after, c, m) ensures c in db.toolCalls && CallIn(db, c, m) {}
  }

  /** Rows removed ahead of a removal that covers them make no difference. */
  lemma RemovedAhead<K, V>(rows: map<K, V>, ahead: set<K>, all: set<K>)
    requires ahead <= all
    ensures rows - ahead - (all - ahead) == rows - all
  {
  }

  lemma BatchIsAbsorbed(db: Tables, b: Batch, now: int, w: Windows)
    requires Allowed(db, b, w) && b.now <= now
    ensures Purged(db.Remove(b.table, b.ids), now, w) == Purged(db, now, w)
  {
    BatchIsExpired(db, b, now, w);
    hide Allowed, Expired, Eligible;
    forall t ensures Expired(db.Remove(b.table, b.ids), t, now, w)
                     == Expired(db, t, now, w) - (if t == b.table then b.ids else {}) {
      ExpiredAfterBatch(db, b, t, now, w);
    }
    match b.table
    case ToolCalls => RemovedAhead(db.toolCalls, b.ids, Expired(db, ToolCalls, now, w));
    case Parts => RemovedAhead(db.parts, b.ids, Expired(db, Parts, now, w));
    case Messages => RemovedAhead(db.messages, b.ids, Expired(db, Messages, now, w));
  }

  /** Any mix of earlier work is absorbed: whatever batches ran before, over any tables, at
      any times up to `now`, with any row choices, a complete run at `now` ends in the same
      tables, one closed-form set difference each. */
  lemma {:induction false} EarlierWorkIsAbsorbed(db: Tables, bs: seq<Batch>, now: int, w: Windows)
    requires AllAllowed(db, bs, w) && forall b :: b in bs ==> b.now <= now
    ensures Purged(AfterBatches(db, bs), now, w) == Purged(db, now, w)
  {
    if bs != [] {
      hide Allowed, Purged;
      var before, last := bs[..|bs| - 1], bs[|bs| - 1];
      assert bs == before + [last];
      AllowedPrefix(db, bs, w);
      EarlierWorkIsAbsorbed(db, before, now, w);
      assert last in bs;
      BatchIsAbsorbed(AfterBatches(db, before), last, now, w);
    }
  }

  /** Nothing left to delete is the same as being purged. */
  lemma PurgedIffNothingEligible(db: Tables, now: int, w: Windows)
    ensures (forall t :: Eligible(db, t, w.Cutoff(t, now)) == {}) <==> Purged(db, now, w) == db
  {
    if forall t :: Eligible(db, t, w.Cutoff(t, now)) == {} {
      NothingExpires(db, now, w);
    }
    if Purged(db, now, w) == db {
      forall t ensures Eligible(db, t, w.Cutoff(t, now)) == {} {
        BatchIsExpired(db, Batch(t, now, Eligible(db, t, w.Cutoff(t, now))), now, w);
        assert Purged(db, now, w).Keys(t) == db.Keys(t) - Expired(db, t, now, w);
      }
    }
  }

  lemma NothingExpires(db: Tables, now: int, w: Windows)
    requires forall t :: Eligible(db, t, w.Cutoff(t, now)) == {}
    ensures forall t :: Expired(db, t, now, w) == {}
  {
    assert Eligible(db, ToolCalls, w.Cutoff(ToolCalls, now)) == {};
    assert Eligible(db, Parts, w.Cutoff(Parts, now)) == {};
    assert Eligible(db, Messages, w.Cutoff(Messages, now)) == {};
    forall c | c in db.toolCalls ensures !Old(db.toolCalls[c].createdAt, w.Cutoff(ToolCalls, now)) {
      assert c !in Eligible(db, ToolCalls, w.Cutoff(ToolCalls, now));
    }
    forall p | p in db.parts ensures !PartExpires(db, p, now, w) {
      assert p !in Eligible(db, Parts, w.Cutoff(Parts, now));
    }
    forall m | m in db.messages ensures !MessageExpires(db, m, now, w) {
      assert m !in Eligible(db, Messages, w.Cutoff(Messages, now));
    }
  }

  /** A complete run after a complete run at the same time deletes nothing. */
  lemma PurgeIsIdempotent(db: Tables, now: int, w: Windows)
    ensures Purged(Purged(db, now, w), now, w) == Purged(db, now, w)
  {
    var done := Purged(db, now, w);
    forall c | c in done.toolCalls ensures !Old(done.toolCalls[c].createdAt, w.Cutoff(ToolCalls, now)) {}
    forall p | p in done.parts ensures !PartExpires(done, p, now, w) {
      if Old(db.parts[p].createdAt, w.Cutoff(Parts, now)) {
        var c :| c in db.toolCalls && CallOf(db, c, p) && !Old(db.toolCalls[c].createdAt, w.Cutoff(ToolCalls, now));
        assert CallOf(done, c, p);
      }
    }
    forall m | m in done.messages ensures !MessageExpires(done, m, now, w) {
      if Old(db.messages[m].createdAt, w.Cutoff(Messages, now)) {
        if p :| p in db.parts && PartIn(db, p, m) && !PartExpires(db, p, now, w) {
          assert PartIn(done, p, m);
        } else {
          var c :| c in db.toolCalls && CallIn(db, c, m) && !Old(db.toolCalls[c].createdAt, w.Cutoff(ToolCalls, now));
          assert CallIn(done, c, m);
        }
      }
    }
  }
}
