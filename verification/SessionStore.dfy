/** The session rows (auth/session_store.go) behind the SCS store adapter (web/session_store.go). */
module SessionStore {
  import opened Options

  type Byte = bv8

  /** Instants are counted, so converting to UTC changes nothing. */
  type Instant = int

  datatype Row = Row(data: seq<Byte>, expiresAt: Instant)

  type Rows = map<string, Row>

  // ---------------------------------------------------------------- the table and the adapter

  lemma KeysCount(a: Rows, b: Rows)
    requires a.Keys <= b.Keys
    ensures |a| <= |b|
  {
    var rest := b.Keys - a.Keys;
    assert a.Keys + rest == b.Keys;
  }

  method Copied(data: seq<Byte>) returns (copy: array<Byte>)
    ensures fresh(copy) && copy[..] == data
  {
    copy := new Byte[|data|](i requires 0 <= i < |data| => data[i]);
  }

  /** What DeleteExpiredSessions leaves: expires_at <= cutoff goes. */
  function Cleaned(rows: Rows, cutoff: Instant): Rows {
    map key | key in rows && rows[key].expiresAt > cutoff :: rows[key]
  }

  /** The auth_sessions table. Rows keep bytes by value; callers hold arrays. */
  class SessionRows {
    var rows: Rows

    constructor ()
      ensures rows == map[]
    {
      rows := map[];
    }

    method SaveSession(key: string, data: array<Byte>, expiresAt: Instant) returns (ok: bool)
      modifies this
      ensures ok <==> key != ""
      ensures rows == if key == "" then old(rows) else old(rows)[key := Row(data[..], expiresAt)]
    {
      if key == "" {
        return false;
      }
      rows := rows[key := Row(data[..], expiresAt)];
      return true;
    }

    method StoredSession(key: string) returns (data: array?<Byte>, expiresAt: Instant)
      ensures data == null <==> key !in rows
      ensures data != null ==> fresh(data) && Row(data[..], expiresAt) == rows[key]
    {
      if key !in rows {
        return null, 0;
      }
      data := Copied(rows[key].data);
      expiresAt := rows[key].expiresAt;
    }

    method DeleteSession(key: string)
      modifies this
      ensures rows == old(rows) - {key}
    {
      rows := rows - {key};
    }

    /** Says how many rows went. */
    method DeleteExpiredSessions(now: Instant) returns (affected: nat)
      modifies this
      ensures rows == Cleaned(old(rows), now)
      ensures forall key :: key in rows <==> key in old(rows) && old(rows)[key].expiresAt > now
      ensures forall key :: key in rows ==> rows[key] == old(rows)[key]
      ensures affected == |old(rows)| - |rows|
    {
      var kept := map key | key in rows && rows[key].expiresAt > now :: rows[key];
      assert kept.Keys <= rows.Keys;
      KeysCount(kept, rows);
      affected := |rows| - |kept|;
      rows := kept;
    }
  }

  /** What FindCtx answers: a map lookup that sees only rows still ahead of the clock. */
  function Visible(rows: Rows, key: string, now: Instant): Option<seq<Byte>> {
    if key in rows && rows[key].expiresAt > now then Some(rows[key].data) else None
  }

  datatype Op =
    | Find(key: string)
    | Commit(key: string, data: seq<Byte>, expiry: Instant)
    | Delete(key: string)
    | Cleanup(cutoff: Instant)

  function Apply(rows: Rows, op: Op, now: Instant): Rows {
    match op
    case Find(key) => if key in rows && rows[key].expiresAt <= now then rows - {key} else rows
    case Commit(key, data, expiry) => if key == "" then rows else rows[key := Row(data, expiry)]
    case Delete(key) => rows - {key}
    case Cleanup(cutoff) => Cleaned(rows, cutoff)
  }

  class Adapter {
    const store: SessionRows

    constructor (store: SessionRows)
      ensures this.store == store
    {
      this.store := store;
    }

    method DeleteCtx(token: string)
      modifies store
      ensures store.rows == Apply(old(store.rows), Delete(token), 0) == old(store.rows) - {token}
    {
      store.DeleteSession(token);
    }

    /** An expired row is deleted where it is found; the bytes handed out are the caller's own. */
    method FindCtx(token: string, now: Instant) returns (data: array?<Byte>)
      modifies store
      ensures store.rows == Apply(old(store.rows), Find(token), now)
      ensures store.rows ==
              if token in old(store.rows) && old(store.rows)[token].expiresAt <= now then old(store.rows) - {token}
              else old(store.rows)
      ensures (if data == null then None else Some(data[..])) == Visible(old(store.rows), token, now)
      ensures data != null <==> token in old(store.rows) && old(store.rows)[token].expiresAt > now
      ensures data != null ==> data[..] == old(store.rows)[token].data
      ensures data != null ==> fresh(data)
    {
      var stored, expiresAt := store.StoredSession(token);
      if stored == null {
        return null;
      }
      if expiresAt <= now {
        store.DeleteSession(token);
        return null;
      }
      data := Copied(stored[..]);
    }

    method CommitCtx(token: string, data: array<Byte>, expiry: Instant) returns (ok: bool)
      modifies store
      ensures ok <==> token != ""
      ensures store.rows == Apply(old(store.rows), Commit(token, data[..], expiry), 0)
      ensures store.rows ==
              if token == "" then old(store.rows) else old(store.rows)[token := Row(data[..], expiry)]
    {
      var copy := Copied(data[..]);
      ok := store.SaveSession(token, copy, expiry);
    }
  }

  // ---------------------------------------------------------------- runs of operations

  /** An operation and the clock when it ran. */
  datatype Step = Step(op: Op, now: Instant)

  function After(rows: Rows, steps: seq<Step>): Rows {
    if steps == [] then rows
    else
      var last := steps[|steps| - 1];
      Apply(After(rows, steps[..|steps| - 1]), last.op, last.now)
  }

  /** What every FindCtx of the run answered, in order. */
  function Answers(rows: Rows, steps: seq<Step>): seq<Option<seq<Byte>>> {
    if steps == [] then []
    else
      var last := steps[|steps| - 1];
      var before := steps[..|steps| - 1];
      if last.op.Find? then Answers(rows, before) + [Visible(After(rows, before), last.op.key, last.now)]
      else Answers(rows, before)
  }

  /** The clock never goes back, and no cleanup is told a time ahead of it. */
  predicate Orderly(steps: seq<Step>) {
    && (forall i, j :: 0 <= i <= j < |steps| ==> steps[i].now <= steps[j].now)
    && (forall i :: 0 <= i < |steps| && steps[i].op.Cleanup? ==> steps[i].op.cutoff <= steps[i].now)
  }

  function WithoutCleanup(steps: seq<Step>): seq<Step> {
    if steps == [] then []
    else
      var last := steps[|steps| - 1];
      var before := WithoutCleanup(steps[..|steps| - 1]);
      if last.op.Cleanup? then before else before + [last]
  }

  // ---------------------------------------------------------------- what the store means

  /** The row last written under a key and not deleted since; expiry and cleanup play no part. */
  function LastWritten(rows: Rows, steps: seq<Step>, key: string): Option<Row> {
    if steps == [] then if key in rows then Some(rows[key]) else None
    else
      match steps[|steps| - 1].op
      case Commit(k, data, expiry) =>
        if k == key && key != "" then Some(Row(data, expiry)) else LastWritten(rows, steps[..|steps| - 1], key)
      case Delete(k) =>
        if k == key then None else LastWritten(rows, steps[..|steps| - 1], key)
      case _ => LastWritten(rows, steps[..|steps| - 1], key)
  }

  function VisibleRow(row: Option<Row>, now: Instant): Option<seq<Byte>> {
    if row.Some? && row.value.expiresAt > now then Some(row.value.data) else None
  }

  /**
   * At the clock of the run's last step and later, the table shows exactly what was last written and has
   * not expired.
   */
  lemma {:induction false} FindReadsLastWrite(rows: Rows, steps: seq<Step>, key: string, now: Instant)
    requires Orderly(steps)
    requires forall i :: 0 <= i < |steps| ==> steps[i].now <= now
    ensures Visible(After(rows, steps), key, now) == VisibleRow(LastWritten(rows, steps, key), now)
  {
    if steps != [] {
      var before := steps[..|steps| - 1];
      FindReadsLastWrite(rows, before, key, now);
      var last := steps[|steps| - 1];
      assert last.now <= now;
    }
  }

  lemma {:induction false} LastWrittenIgnoresCleanup(rows: Rows, steps: seq<Step>, key: string)
    ensures LastWritten(rows, WithoutCleanup(steps), key) == LastWritten(rows, steps, key)
  {
    if steps != [] {
      var before, last := steps[..|steps| - 1], steps[|steps| - 1];
      LastWrittenIgnoresCleanup(rows, before, key);
      if !last.op.Cleanup? {
        var thinned := WithoutCleanup(steps);
        assert thinned[..|thinned| - 1] == WithoutCleanup(before);
      }
    }
  }

  lemma {:induction false} WithoutCleanupOrderly(steps: seq<Step>)
    requires Orderly(steps)
    ensures Orderly(WithoutCleanup(steps))
    ensures forall s :: s in WithoutCleanup(steps) ==> s in steps
  {
    if steps != [] {
      var before, last := steps[..|steps| - 1], steps[|steps| - 1];
      WithoutCleanupOrderly(before);
      assert forall s :: s in before ==> s in steps;
      forall s | s in before ensures s.now <= last.now {
        var i :| 0 <= i < |before| && before[i] == s;
        assert steps[i] == s;
      }
    }
  }

  lemma SameAnswer(rows: Rows, before: seq<Step>, key: string, now: Instant)
    requires Orderly(before)
    requires forall i :: 0 <= i < |before| ==> before[i].now <= now
    ensures Visible(After(rows, WithoutCleanup(before)), key, now) == Visible(After(rows, before), key, now)
  {
    FindReadsLastWrite(rows, before, key, now);
    WithoutCleanupOrderly(before);
    var thinned := WithoutCleanup(before);
    forall i | 0 <= i < |thinned| ensures thinned[i].now <= now {
      assert thinned[i] in before;
    }
    FindReadsLastWrite(rows, thinned, key, now);
    LastWrittenIgnoresCleanup(rows, before, key);
  }

  /** Dropping every cleanup step changes no answer. */
  lemma {:induction false} CleanupUnobservable(rows: Rows, steps: seq<Step>)
    requires Orderly(steps)
    ensures Answers(rows, WithoutCleanup(steps)) == Answers(rows, steps)
  {
    if steps != [] {
      var before, last := steps[..|steps| - 1], steps[|steps| - 1];
      CleanupUnobservable(rows, before);
      if !last.op.Cleanup? {
        var thinned := WithoutCleanup(steps);
        assert thinned[..|thinned| - 1] == WithoutCleanup(before);
        if last.op.Find? {
          SameAnswer(rows, before, last.op.key, last.now);
        }
      }
    }
  }

  /** Two orderly runs that differ only in their cleanup steps answer alike. */
  lemma CleanupScheduleIrrelevant(rows: Rows, one: seq<Step>, other: seq<Step>)
    requires Orderly(one) && Orderly(other) && WithoutCleanup(one) == WithoutCleanup(other)
    ensures Answers(rows, one) == Answers(rows, other)
  {
    CleanupUnobservable(rows, one);
    CleanupUnobservable(rows, other);
  }

  /** The row is still ahead of the clock and the cleanup takes it. */
  predicate TakenEarly(row: Row, cutoff: Instant, now: Instant) {
    now < row.expiresAt <= cutoff
  }

  /** What may happen from an instant on. */
  predicate Follows(steps: seq<Step>, now: Instant) {
    Orderly(steps) && forall i :: 0 <= i < |steps| ==> now <= steps[i].now
  }

  /** After a cleanup a key was last written as without it, unless nothing was written since and its row went. */
  lemma {:induction false} LastWrittenAfterCleanup(rows: Rows, cutoff: Instant, steps: seq<Step>, key: string)
    ensures LastWritten(Cleaned(rows, cutoff), steps, key) == LastWritten(rows, steps, key) ||
            (LastWritten(Cleaned(rows, cutoff), steps, key) == None && key in rows &&
             LastWritten(rows, steps, key) == Some(rows[key]) && rows[key].expiresAt <= cutoff)
    decreases |steps|
  {
    if steps != [] {
      LastWrittenAfterCleanup(rows, cutoff, steps[..|steps| - 1], key);
    }
  }

  /** A cleanup that takes no row early changes no answer of any continuation. */
  lemma {:induction false} LateCleanupUnnoticed(rows: Rows, cutoff: Instant, now: Instant, steps: seq<Step>)
    requires Follows(steps, now)
    requires forall key :: key in rows ==> !TakenEarly(rows[key], cutoff, now)
    ensures Answers(Cleaned(rows, cutoff), steps) == Answers(rows, steps)
    decreases |steps|
  {
    if steps != [] {
      var before, last := steps[..|steps| - 1], steps[|steps| - 1];
      LateCleanupUnnoticed(rows, cutoff, now, before);
      if last.op.Find? {
        FindReadsLastWrite(rows, before, last.op.key, last.now);
        FindReadsLastWrite(Cleaned(rows, cutoff), before, last.op.key, last.now);
        LastWrittenAfterCleanup(rows, cutoff, before, last.op.key);
        hide After, LastWritten, Visible;
      }
    }
  }

  lemma OneMoreStep(rows: Rows, before: seq<Step>, last: Step)
    ensures After(rows, before + [last]) == Apply(After(rows, before), last.op, last.now)
    ensures Answers(rows, before + [last]) ==
            Answers(rows, before) +
            if last.op.Find? then [Visible(After(rows, before), last.op.key, last.now)] else []
    ensures WithoutCleanup(before + [last]) == WithoutCleanup(before) + if last.op.Cleanup? then [] else [last]
  {
    assert (before + [last])[..|before|] == before;
  }

  lemma StartOfRun(rows: Rows)
    ensures After(rows, []) == rows && Answers(rows, []) == [] && WithoutCleanup([]) == []
  {
  }

  lemma AskOnce(rows: Rows, key: string, now: Instant)
    ensures Follows([Step(Find(key), now)], now)
    ensures Answers(rows, [Step(Find(key), now)]) == [Visible(rows, key, now)]
  {
    StartOfRun(rows);
    OneMoreStep(rows, [], Step(Find(key), now));
    assert [] + [Step(Find(key), now)] == [Step(Find(key), now)];
    hide After, Answers;
  }

  /**
   * A single cleanup is never noticed, by any orderly continuation from `now` on, exactly when it takes
   * no row that is still ahead of the clock.
   */
  lemma CleanupHiddenExactly(rows: Rows, cutoff: Instant, now: Instant)
    ensures (forall steps :: Follows(steps, now) ==> Answers(Cleaned(rows, cutoff), steps) == Answers(rows, steps))
       <==> (forall key :: key in rows ==> !TakenEarly(rows[key], cutoff, now))
    ensures (forall key: string, later: Instant :: later >= now ==>
               Visible(Cleaned(rows, cutoff), key, later) == Visible(rows, key, later))
       <==> (forall key :: key in rows ==> !TakenEarly(rows[key], cutoff, now))
  {
    if forall key :: key in rows ==> !TakenEarly(rows[key], cutoff, now) {
      forall steps | Follows(steps, now) ensures Answers(Cleaned(rows, cutoff), steps) == Answers(rows, steps) {
        LateCleanupUnnoticed(rows, cutoff, now, steps);
      }
    } else {
      var key :| key in rows && TakenEarly(rows[key], cutoff, now);
      assert Visible(Cleaned(rows, cutoff), key, now) != Visible(rows, key, now);
      hide Answers, Follows;
      AskOnce(rows, key, now);
      AskOnce(Cleaned(rows, cutoff), key, now);
    }
  }

  /** A cleanup told a time ahead of the clock is noticed: it takes a row that could still be found. */
  lemma EarlyCleanupExample(data: seq<Byte>)
    ensures var steps := [Step(Commit("k", data, 10), 4), Step(Cleanup(10), 5), Step(Find("k"), 6)];
            Answers(map[], steps) == [None] && Answers(map[], WithoutCleanup(steps)) == [Some(data)]
  {
    var commit, cleanup, find := Step(Commit("k", data, 10), 4), Step(Cleanup(10), 5), Step(Find("k"), 6);
    hide After, Answers, WithoutCleanup;
    StartOfRun(map[]);
    OneMoreStep(map[], [], commit);
    assert [] + [commit] == [commit];
    OneMoreStep(map[], [commit], cleanup);
    OneMoreStep(map[], [commit] + [cleanup], find);
    OneMoreStep(map[], [commit], find);
    assert [commit] + [cleanup] + [find] == [commit, cleanup, find];
    assert WithoutCleanup([commit]) == [commit];
    assert WithoutCleanup([commit, cleanup, find]) == [commit] + [find];
  }
}
