/** The merge step of `syncWithServer` in dom-manipulation/script.js: a batch
    of server records is folded into the store by id, server wins. */
module Sync {
  import opened Wrappers
  import opened Quotes

  /** The store after a merge and the two counters the handler reports. */
  datatype MergeResult = MergeResult(store: seq<Quote>, added: nat, updated: nat)

  /** `{ ...sq, updatedAt: Date.now() }`: the server record as it overwrites
      a conflicting one. */
  function Stamped(sq: Quote, now: int): Quote {
    sq.(updatedAt := now)
  }

  /** The stored record and the server record disagree on text or category. */
  predicate Conflicts(q: Quote, sq: Quote) {
    q.text != sq.text || q.category != sq.category
  }

  /** One iteration of the `forEach`: append an unknown id, overwrite the
      first record holding a known id when its content differs, otherwise
      leave the store alone. */
  function MergeOne(s: seq<Quote>, sq: Quote, now: int): MergeResult {
    match FindIndex(s, sq.id)
    case None => MergeResult(s + [sq], 1, 0)
    case Some(i) =>
      if Conflicts(s[i], sq) then MergeResult(s[i := Stamped(sq, now)], 0, 1)
      else MergeResult(s, 0, 0)
  }

  /** The whole `forEach` over the batch, in batch order. */
  function Merge(s: seq<Quote>, batch: seq<Quote>, now: int): (r: MergeResult)
    decreases |batch|
  {
    if batch == [] then MergeResult(s, 0, 0)
    else
      var r := Merge(s, batch[..|batch| - 1], now);
      var t := MergeOne(r.store, batch[|batch| - 1], now);
      MergeResult(t.store, r.added + t.added, r.updated + t.updated)
  }

  /** The bookkeeping of a merge: the store grows by `added`, each batch
      record is counted at most once, old positions keep their ids, and
      with both counters at zero the store is unchanged. */
  lemma {:induction false} MergeBookkeeping(s: seq<Quote>, batch: seq<Quote>, now: int)
    ensures var r := Merge(s, batch, now);
      && |r.store| == |s| + r.added
      && r.added + r.updated <= |batch|
      && (forall i :: 0 <= i < |s| ==> r.store[i].id == s[i].id)
      && (r.added == 0 && r.updated == 0 ==> r.store == s)
    decreases |batch|
  {
    if batch != [] {
      MergeBookkeeping(s, batch[..|batch| - 1], now);
    }
  }

  /** Merging one more record is one more `MergeOne` on the merged store. */
  lemma MergeStep(s: seq<Quote>, p: seq<Quote>, x: Quote, now: int)
    ensures var r := Merge(s, p, now);
      var t := MergeOne(r.store, x, now);
      Merge(s, p + [x], now) == MergeResult(t.store, r.added + t.added, r.updated + t.updated)
  {
    var batch := p + [x];
    assert batch[..|batch| - 1] == p;
  }

  // ---------- What a merge does, position by position ----------

  /** The batch records whose id the store does not hold, in batch order. */
  function Unknown(s: seq<Quote>, batch: seq<Quote>): (u: seq<Quote>)
    decreases |batch|
  {
    if batch == [] then []
    else
      var x := batch[|batch| - 1];
      Unknown(s, batch[..|batch| - 1]) + if FindIndex(s, x.id).None? then [x] else []
  }

  /** Every unknown record is a batch record whose id the store lacks. */
  lemma {:induction false} UnknownFromBatch(s: seq<Quote>, batch: seq<Quote>, k: nat)
    requires k < |Unknown(s, batch)|
    ensures Unknown(s, batch)[k] in batch && FindIndex(s, Unknown(s, batch)[k].id).None?
    decreases |batch|
  {
    var p, x := batch[..|batch| - 1], batch[|batch| - 1];
    assert batch == p + [x];
    if k < |Unknown(s, p)| {
      UnknownFromBatch(s, p, k);
    }
  }

  /** The record position `i` of the store must hold after merging a batch
      whose ids are distinct: the stamped server record when `i` is the first
      position of an id the batch carries with other content, else the old
      record. */
  function Expected(s: seq<Quote>, batch: seq<Quote>, now: int, i: nat): Quote
    requires i < |s|
  {
    match FindIndex(batch, s[i].id)
    case Some(j) =>
      if FindIndex(s, s[i].id) == Some(i) && Conflicts(s[i], batch[j]) then Stamped(batch[j], now) else s[i]
    case None => s[i]
  }

  /** The positions of `s` whose record `t` replaced. */
  ghost function Changed(s: seq<Quote>, t: seq<Quote>): set<nat>
    requires |s| <= |t|
  {
    set i: nat | i < |s| && t[i] != s[i]
  }

  /** The appended tail of `store` is the batch's unknown records. */
  ghost predicate TailAppends(s: seq<Quote>, batch: seq<Quote>, store: seq<Quote>) {
    |s| <= |store| && store[|s|..] == Unknown(s, batch)
  }

  /** Every old position of `store` holds the record it is expected to. */
  ghost predicate PositionsExpected(s: seq<Quote>, batch: seq<Quote>, now: int, store: seq<Quote>) {
    |s| <= |store| && forall i :: 0 <= i < |s| ==> store[i] == Expected(s, batch, now, i)
  }

  /** `updated` counts the old positions whose record changed. */
  ghost predicate CountsChanges(s: seq<Quote>, store: seq<Quote>, updated: nat) {
    |s| <= |store| && updated == |Changed(s, store)|
  }

  /** The merge of a batch with distinct ids, described without the loop. */
  ghost predicate Describes(s: seq<Quote>, batch: seq<Quote>, now: int, r: MergeResult) {
    TailAppends(s, batch, r.store) && PositionsExpected(s, batch, now, r.store)
    && CountsChanges(s, r.store, r.updated)
  }

  /** For a batch with distinct ids: the unknown records are appended in
      batch order and counted by `added`; every old position keeps its record
      unless the batch carries its id with other content and it is the first
      position of that id, in which case it holds the stamped server record;
      `updated` counts exactly the positions that changed. */
  lemma MergeDescribed(s: seq<Quote>, batch: seq<Quote>, now: int)
    requires DistinctIds(batch)
    ensures Describes(s, batch, now, Merge(s, batch, now))
    ensures Merge(s, batch, now).added == |Unknown(s, batch)|
  {
    MergeDescribes(s, batch, now);
    MergeBookkeeping(s, batch, now);
  }

  lemma {:induction false} MergeDescribes(s: seq<Quote>, batch: seq<Quote>, now: int)
    requires DistinctIds(batch)
    ensures Describes(s, batch, now, Merge(s, batch, now))
    decreases |batch|
  {
    if batch == [] {
      assert Changed(s, s) == {};
    } else {
      var p, x := batch[..|batch| - 1], batch[|batch| - 1];
      assert batch == p + [x];
      MergeDescribes(s, p, now);
      MergeStepDescribed(s, p, x, now);
    }
  }

  /** The inductive step of MergeDescribes. */
  lemma MergeStepDescribed(s: seq<Quote>, p: seq<Quote>, x: Quote, now: int)
    requires DistinctIds(p + [x])
    requires Describes(s, p, now, Merge(s, p, now))
    ensures Describes(s, p + [x], now, Merge(s, p + [x], now))
  {
    var batch := p + [x];
    assert batch[..|batch| - 1] == p;
    assert forall k :: 0 <= k < |p| ==> p[k].id != x.id by {
      forall k | 0 <= k < |p| ensures p[k].id != x.id {
        assert batch[k] == p[k] && batch[|p|] == x;
      }
    }
    var r := Merge(s, p, now);
    var t := MergeOne(r.store, x, now);
    assert Merge(s, batch, now) == MergeResult(t.store, r.added + t.added, r.updated + t.updated);
    FindIndexMerged(s, p, x, now);
    FindIndexExtended(p, x);
    if FindIndex(s, x.id).None? {
      assert t == MergeResult(r.store + [x], 1, 0);
      StepUnknown(s, p, x, now, r.store, r.updated);
    } else {
      var i0 := FindIndex(s, x.id).value;
      assert r.store[i0] == s[i0] by {
        assert FindIndex(p, s[i0].id).None?;
      }
      if Conflicts(s[i0], x) {
        assert t == MergeResult(r.store[i0 := Stamped(x, now)], 0, 1);
      } else {
        assert t == MergeResult(r.store, 0, 0);
      }
      StepKnown(s, p, x, now, i0, r.store, r.updated);
    }
  }

  /** MergeDescribed's step for a record whose id the store lacks. */
  lemma StepUnknown(s: seq<Quote>, p: seq<Quote>, x: Quote, now: int, store: seq<Quote>, updated: nat)
    requires FindIndex(s, x.id).None?
    requires forall id :: id != x.id ==> FindIndex(p + [x], id) == FindIndex(p, id)
    requires TailAppends(s, p, store) && PositionsExpected(s, p, now, store)
    requires CountsChanges(s, store, updated)
    ensures TailAppends(s, p + [x], store + [x]) && PositionsExpected(s, p + [x], now, store + [x])
    ensures CountsChanges(s, store + [x], updated)
  {
    UnknownAppended(s, p, x, store);
    PositionsUnknown(s, p, x, now, store);
    assert Changed(s, store + [x]) == Changed(s, store);
  }

  lemma UnknownAppended(s: seq<Quote>, p: seq<Quote>, x: Quote, store: seq<Quote>)
    requires FindIndex(s, x.id).None?
    requires TailAppends(s, p, store)
    ensures TailAppends(s, p + [x], store + [x])
  {
    var batch := p + [x];
    assert batch[..|batch| - 1] == p;
    assert (store + [x])[|s|..] == store[|s|..] + [x];
  }

  lemma PositionsUnknown(s: seq<Quote>, p: seq<Quote>, x: Quote, now: int, store: seq<Quote>)
    requires FindIndex(s, x.id).None?
    requires forall id :: id != x.id ==> FindIndex(p + [x], id) == FindIndex(p, id)
    requires PositionsExpected(s, p, now, store)
    ensures PositionsExpected(s, p + [x], now, store + [x])
  {
    forall i | 0 <= i < |s| ensures (store + [x])[i] == Expected(s, p + [x], now, i) {
      ExpectedElsewhere(s, p, x, now, i);
    }
  }

  /** A position whose id is not `x.id` expects the same record whether or
      not `x` ends the batch. */
  lemma ExpectedElsewhere(s: seq<Quote>, p: seq<Quote>, x: Quote, now: int, i: nat)
    requires i < |s| && s[i].id != x.id
    requires forall id :: id != x.id ==> FindIndex(p + [x], id) == FindIndex(p, id)
    ensures Expected(s, p + [x], now, i) == Expected(s, p, now, i)
  {
    assert FindIndex(p + [x], s[i].id) == FindIndex(p, s[i].id);
  }

  /** MergeDescribed's step for a record whose id first occurs at `i0`. */
  lemma StepKnown(s: seq<Quote>, p: seq<Quote>, x: Quote, now: int, i0: nat, store: seq<Quote>, updated: nat)
    requires FindIndex(s, x.id) == Some(i0)
    requires forall k :: 0 <= k < |p| ==> p[k].id != x.id
    requires FindIndex(p + [x], x.id) == Some(|p|)
    requires forall id :: id != x.id ==> FindIndex(p + [x], id) == FindIndex(p, id)
    requires TailAppends(s, p, store) && PositionsExpected(s, p, now, store)
    requires CountsChanges(s, store, updated)
    requires store[i0] == s[i0]
    ensures var store' := if Conflicts(s[i0], x) then store[i0 := Stamped(x, now)] else store;
      var updated' := if Conflicts(s[i0], x) then updated + 1 else updated;
      TailAppends(s, p + [x], store') && PositionsExpected(s, p + [x], now, store')
      && CountsChanges(s, store', updated')
  {
    var store' := if Conflicts(s[i0], x) then store[i0 := Stamped(x, now)] else store;
    UnknownKnown(s, p, x);
    assert store'[|s|..] == store[|s|..];
    PositionsKnown(s, p, x, now, i0, store);
    if Conflicts(s[i0], x) {
      ChangedGrows(s, store, i0, Stamped(x, now));
    }
  }

  lemma PositionsKnown(s: seq<Quote>, p: seq<Quote>, x: Quote, now: int, i0: nat, store: seq<Quote>)
    requires FindIndex(s, x.id) == Some(i0)
    requires forall k :: 0 <= k < |p| ==> p[k].id != x.id
    requires FindIndex(p + [x], x.id) == Some(|p|)
    requires forall id :: id != x.id ==> FindIndex(p + [x], id) == FindIndex(p, id)
    requires PositionsExpected(s, p, now, store)
    requires store[i0] == s[i0]
    ensures PositionsExpected(s, p + [x], now,
      if Conflicts(s[i0], x) then store[i0 := Stamped(x, now)] else store)
  {
    var store' := if Conflicts(s[i0], x) then store[i0 := Stamped(x, now)] else store;
    forall i | 0 <= i < |s| ensures store'[i] == Expected(s, p + [x], now, i) {
      if i == i0 {
        assert (p + [x])[|p|] == x;
      } else if s[i].id == x.id {
        ExpectedLater(s, p, x, now, i0, i);
      } else {
        ExpectedElsewhere(s, p, x, now, i);
      }
    }
  }

  lemma UnknownKnown(s: seq<Quote>, p: seq<Quote>, x: Quote)
    requires FindIndex(s, x.id).Some?
    ensures Unknown(s, p + [x]) == Unknown(s, p)
  {
    var batch := p + [x];
    assert batch[..|batch| - 1] == p;
  }

  /** A later position holding `x.id` is not its first position: it keeps
      its record either way. */
  lemma ExpectedLater(s: seq<Quote>, p: seq<Quote>, x: Quote, now: int, i0: nat, i: nat)
    requires FindIndex(s, x.id) == Some(i0)
    requires i < |s| && i != i0 && s[i].id == x.id
    requires forall k :: 0 <= k < |p| ==> p[k].id != x.id
    ensures Expected(s, p + [x], now, i) == s[i] == Expected(s, p, now, i)
  {
  }

  /** Overwriting a still-unchanged position with another record adds that
      position to the changed ones. */
  lemma ChangedGrows(s: seq<Quote>, t: seq<Quote>, i0: nat, y: Quote)
    requires |s| <= |t| && i0 < |s| && t[i0] == s[i0] && y != s[i0]
    ensures |Changed(s, t[i0 := y])| == |Changed(s, t)| + 1
  {
    assert Changed(s, t[i0 := y]) == Changed(s, t) + {i0};
  }

  /** Merging records whose ids differ from `x.id` leaves the first position
      of `x.id` where it was in the original store, or absent. */
  lemma FindIndexMerged(s: seq<Quote>, p: seq<Quote>, x: Quote, now: int)
    requires forall k :: 0 <= k < |p| ==> p[k].id != x.id
    requires Describes(s, p, now, Merge(s, p, now))
    ensures FindIndex(Merge(s, p, now).store, x.id) == FindIndex(s, x.id)
  {
    var t := Merge(s, p, now).store;
    match FindIndex(s, x.id)
    case Some(i) =>
      FindIndexIs(t, x.id, i);
    case None =>
      forall j | 0 <= j < |t| ensures t[j].id != x.id {
        if j >= |s| {
          assert t[j] == Unknown(s, p)[j - |s|];
          UnknownFromBatch(s, p, j - |s|);
        }
      }
  }

  /** Looking an id up in a batch extended by `x`. */
  lemma FindIndexExtended(p: seq<Quote>, x: Quote)
    requires forall k :: 0 <= k < |p| ==> p[k].id != x.id
    ensures FindIndex(p + [x], x.id) == Some(|p|)
    ensures forall id :: id != x.id ==> FindIndex(p + [x], id) == FindIndex(p, id)
  {
    FindIndexIs(p + [x], x.id, |p|);
    forall id | id != x.id ensures FindIndex(p + [x], id) == FindIndex(p, id) {
      match FindIndex(p, id)
      case Some(j) => FindIndexIs(p + [x], id, j);
      case None =>
    }
  }

  // ---------- Idempotence ----------

  /** The store already holds `b`'s content at the first position of its id. */
  predicate Reflects(store: seq<Quote>, b: Quote) {
    match FindIndex(store, b.id)
    case Some(i) => !Conflicts(store[i], b)
    case None => false
  }

  /** After merging a batch with distinct ids, the store reflects every
      record of the batch. */
  lemma {:induction false} MergeReflects(s: seq<Quote>, batch: seq<Quote>, now: int)
    requires DistinctIds(batch)
    ensures forall b :: b in batch ==> Reflects(Merge(s, batch, now).store, b)
    decreases |batch|
  {
    if batch != [] {
      var p, x := batch[..|batch| - 1], batch[|batch| - 1];
      assert batch == p + [x];
      MergeReflects(s, p, now);
      var store := Merge(s, p, now).store;
      MergeOneReflects(store, x, now);
      forall b | b in batch ensures Reflects(MergeOne(store, x, now).store, b) {
        if b != x {
          var k :| 0 <= k < |batch| && batch[k] == b;
          assert k < |p| && p[k] == b;
          MergeOneKeepsReflects(store, x, now, b);
        }
      }
    }
  }

  /** One merge step reflects the record it processed. */
  lemma MergeOneReflects(store: seq<Quote>, x: Quote, now: int)
    ensures Reflects(MergeOne(store, x, now).store, x)
  {
    match FindIndex(store, x.id)
    case None => FindIndexIs(store + [x], x.id, |store|);
    case Some(k) =>
      if Conflicts(store[k], x) {
        FindIndexIs(store[k := Stamped(x, now)], x.id, k);
      }
  }

  /** One merge step keeps reflecting any record with another id. */
  lemma MergeOneKeepsReflects(store: seq<Quote>, x: Quote, now: int, b: Quote)
    requires b.id != x.id && Reflects(store, b)
    ensures Reflects(MergeOne(store, x, now).store, b)
  {
    var i := FindIndex(store, b.id).value;
    match FindIndex(store, x.id)
    case None => FindIndexIs(store + [x], b.id, i);
    case Some(k) =>
      if Conflicts(store[k], x) {
        FindIndexIs(store[k := Stamped(x, now)], b.id, i);
      }
  }

  /** A store that reflects every record of a batch is left as it is, and
      both counters stay at zero. */
  lemma {:induction false} MergeReflected(t: seq<Quote>, batch: seq<Quote>, now: int)
    requires forall b :: b in batch ==> Reflects(t, b)
    ensures Merge(t, batch, now) == MergeResult(t, 0, 0)
    decreases |batch|
  {
    if batch != [] {
      var p := batch[..|batch| - 1];
      assert forall b :: b in p ==> b in batch;
      MergeReflected(t, p, now);
      assert batch[|batch| - 1] in batch;
    }
  }

  /** Running the same batch (distinct ids) a second time adds nothing and
      updates nothing. */
  lemma MergeIdempotent(s: seq<Quote>, batch: seq<Quote>, now: int, later: int)
    requires DistinctIds(batch)
    ensures var once := Merge(s, batch, now).store;
      Merge(once, batch, later) == MergeResult(once, 0, 0)
  {
    MergeReflects(s, batch, now);
    MergeReflected(Merge(s, batch, now).store, batch, later);
  }

  /** Merging posts re-mapped at a later time changes nothing: the records
      differ only in `updatedAt`, which the conflict test ignores. This is
      the next periodic sync over the same posts. */
  lemma ResyncUnchanged(s: seq<Quote>, posts: seq<Post>, now1: int, now2: int)
    requires forall i, j :: 0 <= i < j < |posts| ==> posts[i].id != posts[j].id
    ensures var once := Merge(s, ServerQuotes(posts, now1), now1).store;
      Merge(once, ServerQuotes(posts, now2), now2) == MergeResult(once, 0, 0)
  {
    var first, again := ServerQuotes(posts, now1), ServerQuotes(posts, now2);
    ServerIdsDistinct(posts, now1);
    MergeReflects(s, first, now1);
    var once := Merge(s, first, now1).store;
    forall b | b in again ensures Reflects(once, b) {
      ReflectsRestamped(once, posts, now1, now2, b);
    }
    MergeReflected(once, again, now2);
  }

  /** A record re-mapped from the same post is reflected when the first
      mapping was. */
  lemma ReflectsRestamped(store: seq<Quote>, posts: seq<Post>, now1: int, now2: int, b: Quote)
    requires forall c :: c in ServerQuotes(posts, now1) ==> Reflects(store, c)
    requires b in ServerQuotes(posts, now2)
    ensures Reflects(store, b)
  {
    var i :| 0 <= i < |posts| && ServerQuotes(posts, now2)[i] == b;
    var a := ServerQuotes(posts, now1)[i];
    assert a in ServerQuotes(posts, now1);
    assert a.id == b.id && a.text == b.text && a.category == b.category;
  }

  // ---------- Distinct ids ----------

  /** The unknown records of a batch with distinct ids have distinct ids. */
  lemma {:induction false} UnknownDistinct(s: seq<Quote>, batch: seq<Quote>)
    requires DistinctIds(batch)
    ensures DistinctIds(Unknown(s, batch))
    decreases |batch|
  {
    if batch != [] {
      var p, x := batch[..|batch| - 1], batch[|batch| - 1];
      assert DistinctIds(p) by {
        forall i, j | 0 <= i < j < |p| ensures p[i].id != p[j].id {
          assert p[i] == batch[i] && p[j] == batch[j];
        }
      }
      UnknownDistinct(s, p);
      var u := Unknown(s, p);
      if FindIndex(s, x.id).None? {
        forall k | 0 <= k < |u| ensures u[k].id != x.id {
          UnknownFromBatch(s, p, k);
          var m :| 0 <= m < |p| && p[m] == u[k];
          assert batch[m] == p[m];
        }
        assert Unknown(s, batch) == u + [x];
      } else {
        assert Unknown(s, batch) == u;
      }
    }
  }

  /** Merging a batch with distinct ids into a store with distinct ids
      keeps the ids distinct. */
  lemma MergeKeepsDistinctIds(s: seq<Quote>, batch: seq<Quote>, now: int)
    requires DistinctIds(s) && DistinctIds(batch)
    ensures DistinctIds(Merge(s, batch, now).store)
  {
    MergeDescribed(s, batch, now);
    MergeBookkeeping(s, batch, now);
    UnknownDistinct(s, batch);
    var t := Merge(s, batch, now).store;
    var u := Unknown(s, batch);
    assert t[|s|..] == u;
    forall i, j | 0 <= i < j < |t| ensures t[i].id != t[j].id {
      if j >= |s| {
        assert t[j] == u[j - |s|];
        UnknownFromBatch(s, batch, j - |s|);
        if i >= |s| {
          assert t[i] == u[i - |s|];
        }
      }
    }
  }

  /** For a batch with distinct ids, the store changes exactly when one of
      the counters is non-zero, so persisting on `added || updated` persists
      exactly the merges that changed something. */
  lemma MergeChangesIff(s: seq<Quote>, batch: seq<Quote>, now: int)
    requires DistinctIds(batch)
    ensures var r := Merge(s, batch, now); r.store != s <==> r.added + r.updated > 0
  {
    MergeDescribed(s, batch, now);
    var r := Merge(s, batch, now);
    if r.store == s {
      assert Changed(s, r.store) == {};
    }
  }
}
