/** What retention keeps and removes, row by row, in terms of each table's own window. */
module RetentionMeaning {
  import opened Options
  import opened Retention

  /** At least as new as the window asks, or without a source time. */
  predicate Retained(createdAt: Option<int>, now: int, window: int) {
    createdAt.None? || createdAt.value >= now - window
  }

  /** Every row of `after` is the row it was before. */
  ghost predicate RowsUnchanged(before: Tables, after: Tables) {
    && (forall c :: c in after.toolCalls ==> c in before.toolCalls && after.toolCalls[c] == before.toolCalls[c])
    && (forall p :: p in after.parts ==> p in before.parts && after.parts[p] == before.parts[p])
    && (forall m :: m in after.messages ==> m in before.messages && after.messages[m] == before.messages[m])
  }

  predicate HasCall(db: Tables, p: Id) {
    exists c :: c in db.toolCalls && db.toolCalls[c].partId == p
  }

  predicate HasChild(db: Tables, m: Id) {
    || (exists p :: p in db.parts && db.parts[p].messageId == Some(m))
    || (exists c :: c in db.toolCalls && db.toolCalls[c].messageId == Some(m))
  }

  /** A complete run: a tool call stays exactly if its own table retains it; a part if its table
      retains it or a call of it stays; a message if its table retains it or a part or a call of it
      stays. */
  ghost predicate Survivors(before: Tables, after: Tables, now: int, w: Windows) {
    && RowsUnchanged(before, after)
    && (forall c :: c in before.toolCalls ==>
          (c in after.toolCalls <==> Retained(before.toolCalls[c].createdAt, now, w.toolCalls)))
    && (forall p :: p in before.parts ==>
          (p in after.parts <==> Retained(before.parts[p].createdAt, now, w.parts) || HasCall(after, p)))
    && (forall m :: m in before.messages ==>
          (m in after.messages <==> Retained(before.messages[m].createdAt, now, w.messages) || HasChild(after, m)))
  }

  /** Any run: what is gone was past the window of its own table, and nothing left refers to it. */
  ghost predicate LostRows(before: Tables, after: Tables, now: int, w: Windows) {
    && RowsUnchanged(before, after)
    && (forall c :: c in before.toolCalls && c !in after.toolCalls ==>
          !Retained(before.toolCalls[c].createdAt, now, w.toolCalls))
    && (forall p :: p in before.parts && p !in after.parts ==>
          !Retained(before.parts[p].createdAt, now, w.parts) && !HasCall(after, p))
    && (forall m :: m in before.messages && m !in after.messages ==>
          !Retained(before.messages[m].createdAt, now, w.messages) && !HasChild(after, m))
  }

  /** What one delete statement, or one count, ranges over. */
  lemma EligibleMeans(db: Tables, now: int, w: Windows)
    ensures forall c :: c in Eligible(db, ToolCalls, w.Cutoff(ToolCalls, now)) <==>
                          c in db.toolCalls && !Retained(db.toolCalls[c].createdAt, now, w.toolCalls)
    ensures forall p :: p in Eligible(db, Parts, w.Cutoff(Parts, now)) <==>
                          p in db.parts && !Retained(db.parts[p].createdAt, now, w.parts) && !HasCall(db, p)
    ensures forall m :: m in Eligible(db, Messages, w.Cutoff(Messages, now)) <==>
                          m in db.messages && !Retained(db.messages[m].createdAt, now, w.messages) && !HasChild(db, m)
  {
  }

  lemma PurgedCalls(db: Tables, now: int, w: Windows)
    ensures forall c :: c in Purged(db, now, w).toolCalls <==>
                          c in db.toolCalls && Retained(db.toolCalls[c].createdAt, now, w.toolCalls)
  {
  }

  lemma PurgedParts(db: Tables, now: int, w: Windows)
    ensures forall p :: p in Purged(db, now, w).parts <==>
                          p in db.parts && (Retained(db.parts[p].createdAt, now, w.parts) || HasCall(Purged(db, now, w), p))
  {
    PurgedCalls(db, now, w);
    var after := Purged(db, now, w);
    forall p | p in db.parts
      ensures p in after.parts <==> Retained(db.parts[p].createdAt, now, w.parts) || HasCall(after, p)
    {
      assert HasCall(after, p) <==> exists c :: c in after.toolCalls && CallOf(db, c, p);
    }
  }

  lemma PurgedMessages(db: Tables, now: int, w: Windows)
    ensures forall m :: m in Purged(db, now, w).messages <==>
                          m in db.messages
                          && (Retained(db.messages[m].createdAt, now, w.messages) || HasChild(Purged(db, now, w), m))
  {
    PurgedCalls(db, now, w);
    var after := Purged(db, now, w);
    forall m | m in db.messages
      ensures m in after.messages <==> Retained(db.messages[m].createdAt, now, w.messages) || HasChild(after, m)
    {
      if HasChild(after, m) {
        if p :| p in after.parts && after.parts[p].messageId == Some(m) {
          assert PartIn(db, p, m) && !PartExpires(db, p, now, w);
        } else {
          var c :| c in after.toolCalls && after.toolCalls[c].messageId == Some(m);
          assert CallIn(db, c, m);
        }
      } else {
        assert forall p :: p in db.parts && PartIn(db, p, m) ==> p !in after.parts;
        assert forall c :: c in db.toolCalls && CallIn(db, c, m) ==> c !in after.toolCalls;
      }
    }
  }

  /** What a complete run leaves. */
  lemma PurgedMeans(db: Tables, now: int, w: Windows)
    ensures Survivors(db, Purged(db, now, w), now, w)
  {
    PurgedCalls(db, now, w);
    PurgedParts(db, now, w);
    PurgedMessages(db, now, w);
    hide Expired, HasCall, HasChild, Retained;
  }

  lemma RemovedRows(db: Tables, t: Table, ids: set<Id>)
    ensures RowsUnchanged(db, db.Remove(t, ids))
    ensures forall u :: db.Remove(t, ids).Keys(u) == db.Keys(u) - if u == t then ids else {}
  {
    assert db.toolCalls.Keys - {} == db.toolCalls.Keys && db.parts.Keys - {} == db.parts.Keys
           && db.messages.Keys - {} == db.messages.Keys;
  }

  /** One batch, at `now`, on top of what was lost before. */
  lemma BatchLoses(first: Tables, db: Tables, b: Batch, w: Windows)
    requires LostRows(first, db, b.now, w) && Allowed(db, b, w)
    ensures LostRows(first, db.Remove(b.table, b.ids), b.now, w)
  {
    hide Retained, Eligible;
    EligibleMeans(db, b.now, w);
    var after := db.Remove(b.table, b.ids);
    RemovedRows(db, b.table, b.ids);
    forall p ensures HasCall(after, p) ==> HasCall(db, p) {}
    forall m ensures HasChild(after, m) ==> HasChild(db, m) {}
  }

  lemma {:induction false} BatchesLose(first: Tables, bs: seq<Batch>, now: int, w: Windows)
    requires AllAllowed(first, bs, w) && forall b :: b in bs ==> b.now == now
    ensures LostRows(first, AfterBatches(first, bs), now, w)
  {
    if bs != [] {
      hide Allowed, LostRows;
      var before, last := bs[..|bs| - 1], bs[|bs| - 1];
      assert bs == before + [last];
      AllowedPrefix(first, bs, w);
      BatchesLose(first, before, now, w);
      assert last in bs;
      BatchLoses(first, AfterBatches(first, before), last, w);
    }
  }
}
