/**
 * lib/hooks/useAnswers.ts: the admin page's answer hook over the remote store.
 * The store is an abstract pair of tables, `answers` and `reset_answers`; each
 * call to it is one step that either does all of its work or fails and does
 * nothing, as decided by an injected fault. A reset is a sequence of such steps
 * (read a snapshot, insert the stamped copies, delete the snapshot's ids), and
 * the hook's React state is the fields of `AnswersHook`.
 */
module UseAnswers {
  import opened Wrappers
  import Ordering
  import opened Time

  /** A row of `answers`; the id is assigned by the store. */
  datatype Row = Row(id: nat, username: string, answer: string, timestamp: Timestamp)

  /** A row of `reset_answers`: the moved row with its reset stamp. */
  datatype ResetRow = ResetRow(row: Row, resetTimestamp: Timestamp)

  /** An error the store returns instead of data; `.single()` fails unless exactly one row matches. */
  datatype DbError = Failed(message: string) | NotExactlyOneRow

  /** What the hook's operations throw. */
  datatype HookError = AlreadySubmitted | Store(error: DbError)

  /**
   * Which store calls of one operation fail, and with what message: the first
   * read, the insert, the delete, and the two reads of the closing refresh.
   */
  datatype Faults = Faults(read: Option<string>, insert: Option<string>, delete: Option<string>,
                           refreshActive: Option<string>, refreshReset: Option<string>)

  /** The rows of `t` written by `u`, in order: the filter `AnswersStore.Matching` applies to answers, here on rows and built from the back. */
  function Matches(t: seq<Row>, u: string): seq<Row>
  {
    if t == [] then []
    else Matches(t[..|t| - 1], u) + (if t[|t| - 1].username == u then [t[|t| - 1]] else [])
  }

  /** The rows of `t` whose id is `id`. */
  function WithId(t: seq<Row>, id: nat): seq<Row>
  {
    if t == [] then []
    else WithId(t[..|t| - 1], id) + (if t[|t| - 1].id == id then [t[|t| - 1]] else [])
  }

  /** `.delete().in('id', ids)`: the rows of `t` whose id is not in `ids`, in order. */
  function WithoutIds(t: seq<Row>, ids: set<nat>): seq<Row>
  {
    if t == [] then []
    else (if t[0].id !in ids then [t[0]] else []) + WithoutIds(t[1..], ids)
  }

  function IdsOf(t: seq<Row>): set<nat>
  {
    set k | 0 <= k < |t| :: t[k].id
  }

  /** `{ ...answer, resetTimestamp: new Date().toISOString() }` along `t`. */
  function StampRows(t: seq<Row>, clock: Clock): seq<ResetRow>
  {
    seq(|t|, i requires 0 <= i < |t| => ResetRow(t[i], clock(i)))
  }

  /** The original rows held by `reset_answers`. */
  function ArchivedRows(r: seq<ResetRow>): seq<Row>
  {
    seq(|r|, i requires 0 <= i < |r| => r[i].row)
  }

  function NegTimestamp(x: Row): int { -(x.timestamp as int) }

  function NegResetTimestamp(x: ResetRow): int { -(x.resetTimestamp as int) }

  /** `.order('timestamp', { ascending: false })` */
  function NewestFirst(t: seq<Row>): seq<Row>
  {
    Ordering.SortBy(t, NegTimestamp)
  }

  /** `.order('resetTimestamp', { ascending: false })` */
  function NewestResetFirst(r: seq<ResetRow>): seq<ResetRow>
  {
    Ordering.SortBy(r, NegResetTimestamp)
  }

  /**
   * The hook's two lists and error message after `fetchAnswers` over the tables
   * `t` and `r`: both lists, newest first, when both reads succeed; otherwise
   * the lists as they were and the message of the first failed read.
   */
  function Refreshed(active: seq<Row>, reset: seq<ResetRow>, error: Option<string>,
                     t: seq<Row>, r: seq<ResetRow>, activeFault: Option<string>, resetFault: Option<string>)
    : (seq<Row>, seq<ResetRow>, Option<string>)
  {
    if activeFault.Some? then (active, reset, Some(activeFault.value))
    else if resetFault.Some? then (active, reset, Some(resetFault.value))
    else (NewestFirst(t), NewestResetFirst(r), error)
  }

  /** The `data` of `.eq('username', u).single()` when the call itself succeeds. */
  function ExistingRow(t: seq<Row>, u: string): Option<Row>
  {
    var m := Matches(t, u);
    if |m| == 1 then Some(m[0]) else None
  }

  ghost predicate AtMostOnePerUser(t: seq<Row>)
  {
    forall u :: |Matches(t, u)| <= 1
  }

  ghost predicate UniqueIds(t: seq<Row>)
  {
    forall i, j :: 0 <= i < j < |t| ==> t[i].id != t[j].id
  }

  /** No row of `before` has vanished: each is still active or has been archived. */
  ghost predicate NoneLost(before: seq<Row>, active: seq<Row>, reset: seq<ResetRow>)
  {
    forall x :: x in before ==> x in active || x in ArchivedRows(reset)
  }

  // ---------------------------------------------------------------------------
  // Facts about the table functions

  /** The delete by ids keeps exactly the rows whose id is not listed. */
  lemma {:induction false} WithoutIdsExact(t: seq<Row>, ids: set<nat>, x: Row)
    ensures x in WithoutIds(t, ids) <==> x in t && x.id !in ids
  {
    if t != [] {
      WithoutIdsExact(t[1..], ids, x);
      assert t == [t[0]] + t[1..];
    }
  }

  lemma {:induction false} WithoutIdsKeepsUnique(t: seq<Row>, ids: set<nat>)
    requires UniqueIds(t)
    ensures UniqueIds(WithoutIds(t, ids))
  {
    if t != [] {
      WithoutIdsKeepsUnique(t[1..], ids);
      var rest := WithoutIds(t[1..], ids);
      forall k | 0 <= k < |rest| ensures rest[k].id != t[0].id {
        WithoutIdsExact(t[1..], ids, rest[k]);
        var m :| 0 <= m < |t[1..]| && t[1..][m] == rest[k];
        assert t[m + 1] == rest[k];
      }
    }
  }

  /** Deleting every id of a snapshot empties the snapshot. */
  lemma SnapshotDeleteEmpties(t: seq<Row>)
    ensures WithoutIds(t, IdsOf(t)) == []
  {
    if WithoutIds(t, IdsOf(t)) != [] {
      var x := WithoutIds(t, IdsOf(t))[0];
      WithoutIdsExact(t, IdsOf(t), x);
    }
  }

  /** With unique ids, deleting by one id present once removes that row only: one row fewer, the rest kept. */
  lemma {:induction false} DeleteOneId(t: seq<Row>, id: nat)
    requires |WithId(t, id)| == 1
    ensures |WithoutIds(t, {id})| == |t| - 1
    ensures forall x :: x in t && x.id != id ==> x in WithoutIds(t, {id})
    ensures WithId(t, id)[0] !in WithoutIds(t, {id})
  {
    WithoutIdsCount(t, id);
    forall x | x in t && x.id != id ensures x in WithoutIds(t, {id}) {
      WithoutIdsExact(t, {id}, x);
    }
    WithIdRows(t, id);
    WithoutIdsExact(t, {id}, WithId(t, id)[0]);
  }

  lemma {:induction false} WithIdRows(t: seq<Row>, id: nat)
    ensures forall x :: x in WithId(t, id) ==> x.id == id
  {
    if t != [] {
      WithIdRows(t[..|t| - 1], id);
    }
  }

  lemma {:induction false} WithoutIdsCount(t: seq<Row>, id: nat)
    ensures |WithoutIds(t, {id})| + |WithId(t, id)| == |t|
  {
    if t != [] {
      WithoutIdsCount(t[1..], id);
      WithIdCons(t, id);
    }
  }

  lemma {:induction false} WithIdCons(t: seq<Row>, id: nat)
    requires t != []
    ensures |WithId(t, id)| == (if t[0].id == id then 1 else 0) + |WithId(t[1..], id)|
  {
    if |t| > 1 {
      WithIdCons(t[..|t| - 1], id);
      assert t[..|t| - 1][1..] == t[1..][..|t[1..]| - 1];
    }
  }

  /** Appending a row adds one match for its author and none for anybody else. */
  lemma MatchesAppend(t: seq<Row>, x: Row, u: string)
    ensures |Matches(t + [x], u)| == |Matches(t, u)| + (if x.username == u then 1 else 0)
  {
    assert (t + [x])[..|t|] == t;
  }

  /** Appending a row for a user who has none keeps at most one row per user. */
  lemma InsertKeepsAtMostOne(t: seq<Row>, x: Row)
    requires AtMostOnePerUser(t) && ExistingRow(t, x.username).None?
    ensures AtMostOnePerUser(t + [x])
  {
    forall v ensures |Matches(t + [x], v)| <= 1 {
      MatchesAppend(t, x, v);
    }
  }

  lemma {:induction false} MatchesAuthors(t: seq<Row>, u: string)
    ensures forall x :: x in Matches(t, u) ==> x in t && x.username == u
  {
    if t != [] {
      MatchesAuthors(t[..|t| - 1], u);
    }
  }

  /** A user with a row in a table of at most one row each is found by the single-row lookup, and only then. */
  lemma {:induction false} ExistingRowFindsOwnRow(t: seq<Row>, u: string)
    requires AtMostOnePerUser(t)
    ensures ExistingRow(t, u).Some? <==> exists x :: x in t && x.username == u
    ensures ExistingRow(t, u).Some? ==> ExistingRow(t, u).value in t && ExistingRow(t, u).value.username == u
  {
    MatchesAuthors(t, u);
    var m := Matches(t, u);
    assert |m| <= 1;
    if x :| x in t && x.username == u {
      MatchesNonEmpty(t, u, x);
    }
    if |m| == 1 {
      assert m[0] in m;
    }
  }

  lemma {:induction false} MatchesNonEmpty(t: seq<Row>, u: string, x: Row)
    requires x in t && x.username == u
    ensures |Matches(t, u)| > 0
  {
    if x != t[|t| - 1] {
      assert t == t[..|t| - 1] + [t[|t| - 1]];
      assert x in t[..|t| - 1];
      MatchesNonEmpty(t[..|t| - 1], u, x);
    }
  }

  /** The lookup is `.single()`: with two or more rows for `u` it returns nothing, so a further insert is not refused. */
  lemma DuplicateCheckMissesRepeats(t: seq<Row>, u: string)
    requires |Matches(t, u)| >= 2
    ensures ExistingRow(t, u) == None
  {
  }

  /** The refresh lists active rows newest first, and loses or invents none. */
  lemma NewestFirstOrdered(t: seq<Row>)
    ensures forall i, j :: 0 <= i < j < |NewestFirst(t)| ==> NewestFirst(t)[i].timestamp >= NewestFirst(t)[j].timestamp
    ensures multiset(NewestFirst(t)) == multiset(t)
  {
    var r := NewestFirst(t);
    assert Ordering.SortedBy(r, NegTimestamp);
    forall i, j | 0 <= i < j < |r| ensures r[i].timestamp >= r[j].timestamp {
      assert NegTimestamp(r[i]) <= NegTimestamp(r[j]);
    }
  }

  /** The refresh lists reset rows most recently reset first, and loses or invents none. */
  lemma NewestResetFirstOrdered(r: seq<ResetRow>)
    ensures forall i, j :: 0 <= i < j < |NewestResetFirst(r)| ==>
              NewestResetFirst(r)[i].resetTimestamp >= NewestResetFirst(r)[j].resetTimestamp
    ensures multiset(NewestResetFirst(r)) == multiset(r)
  {
    var s := NewestResetFirst(r);
    assert Ordering.SortedBy(s, NegResetTimestamp);
    forall i, j | 0 <= i < j < |s| ensures s[i].resetTimestamp >= s[j].resetTimestamp {
      assert NegResetTimestamp(s[i]) <= NegResetTimestamp(s[j]);
    }
  }

  lemma ArchivedStamped(r: seq<ResetRow>, t: seq<Row>, clock: Clock)
    ensures ArchivedRows(r + StampRows(t, clock)) == ArchivedRows(r) + t
  {
  }

  // ---------------------------------------------------------------------------
  // The two tables

  class Database {
    var answers: seq<Row>
    var resetAnswers: seq<ResetRow>
    /** The next id the store hands out. */
    var serial: nat

    ghost predicate Valid()
      reads this
    {
      UniqueIds(answers) && forall i :: 0 <= i < |answers| ==> answers[i].id < serial
    }

    constructor ()
      ensures Valid() && answers == [] && resetAnswers == []
    {
      answers := [];
      resetAnswers := [];
      serial := 0;
    }

    /** `from('answers').select('*')` */
    method SelectAnswers(fault: Option<string>) returns (r: Result<seq<Row>, DbError>)
      ensures r == if fault.Some? then Err(Failed(fault.value)) else Ok(answers)
    {
      if fault.Some? { return Err(Failed(fault.value)); }
      r := Ok(answers);
    }

    method SelectAnswersNewestFirst(fault: Option<string>) returns (r: Result<seq<Row>, DbError>)
      ensures r == if fault.Some? then Err(Failed(fault.value)) else Ok(NewestFirst(answers))
    {
      if fault.Some? { return Err(Failed(fault.value)); }
      r := Ok(NewestFirst(answers));
    }

    method SelectResetNewestFirst(fault: Option<string>) returns (r: Result<seq<ResetRow>, DbError>)
      ensures r == if fault.Some? then Err(Failed(fault.value)) else Ok(NewestResetFirst(resetAnswers))
    {
      if fault.Some? { return Err(Failed(fault.value)); }
      r := Ok(NewestResetFirst(resetAnswers));
    }

    /** `.eq('username', u).single()` */
    method SelectSingleByUsername(u: string, fault: Option<string>) returns (r: Result<Row, DbError>)
      ensures fault.Some? ==> r == Err(Failed(fault.value))
      ensures fault.None? ==> r == if |Matches(answers, u)| == 1 then Ok(Matches(answers, u)[0]) else Err(NotExactlyOneRow)
    {
      if fault.Some? { return Err(Failed(fault.value)); }
      var m := Matches(answers, u);
      r := if |m| == 1 then Ok(m[0]) else Err(NotExactlyOneRow);
    }

    /** `.eq('id', id).single()` */
    method SelectSingleById(id: nat, fault: Option<string>) returns (r: Result<Row, DbError>)
      ensures fault.Some? ==> r == Err(Failed(fault.value))
      ensures fault.None? ==> r == if |WithId(answers, id)| == 1 then Ok(WithId(answers, id)[0]) else Err(NotExactlyOneRow)
    {
      if fault.Some? { return Err(Failed(fault.value)); }
      var m := WithId(answers, id);
      r := if |m| == 1 then Ok(m[0]) else Err(NotExactlyOneRow);
    }

    /** `from('answers').insert([...]).select().single()`: the stored row, with its new id. */
    method InsertAnswer(username: string, answer: string, now: Timestamp, fault: Option<string>)
      returns (r: Result<Row, DbError>)
      requires Valid()
      modifies this
      ensures Valid() && resetAnswers == old(resetAnswers)
      ensures fault.Some? ==> r == Err(Failed(fault.value)) && answers == old(answers)
      ensures fault.None? ==>
        && r == Ok(Row(old(serial), username, answer, now))
        && old(serial) !in IdsOf(old(answers))
        && answers == old(answers) + [r.value]
    {
      if fault.Some? { return Err(Failed(fault.value)); }
      var row := Row(serial, username, answer, now);
      answers := answers + [row];
      serial := serial + 1;
      r := Ok(row);
    }

    /** `from('reset_answers').insert(rows)` */
    method InsertResetRows(rows: seq<ResetRow>, fault: Option<string>) returns (e: Option<DbError>)
      requires Valid()
      modifies this
      ensures Valid() && answers == old(answers)
      ensures e == if fault.Some? then Some(Failed(fault.value)) else None
      ensures resetAnswers == if fault.Some? then old(resetAnswers) else old(resetAnswers) + rows
    {
      if fault.Some? { return Some(Failed(fault.value)); }
      resetAnswers := resetAnswers + rows;
      e := None;
    }

    /** `from('answers').delete().in('id', ids)` (and `.eq('id', id)` for one id) */
    method DeleteIds(ids: set<nat>, fault: Option<string>) returns (e: Option<DbError>)
      requires Valid()
      modifies this
      ensures Valid() && resetAnswers == old(resetAnswers)
      ensures e == if fault.Some? then Some(Failed(fault.value)) else None
      ensures answers == if fault.Some? then old(answers) else WithoutIds(old(answers), ids)
    {
      if fault.Some? { return Some(Failed(fault.value)); }
      WithoutIdsKeepsUnique(answers, ids);
      var kept := WithoutIds(answers, ids);
      forall i | 0 <= i < |kept| ensures kept[i].id < serial {
        WithoutIdsExact(answers, ids, kept[i]);
      }
      answers := WithoutIds(answers, ids);
      e := None;
    }
  }

  // ---------------------------------------------------------------------------
  // The hook

  class AnswersHook {
    const db: Database
    var activeAnswers: seq<Row>
    var resetAnswersList: seq<ResetRow>
    var loading: bool
    var error: Option<string>

    constructor (db: Database)
      ensures this.db == db && activeAnswers == [] && resetAnswersList == [] && loading && error == None
    {
      this.db := db;
      activeAnswers := [];
      resetAnswersList := [];
      loading := true;
      error := None;
    }

    /**
     * `fetchAnswers`: both lists are replaced, newest first, only when both reads
     * succeed; a failed read records its message and keeps both lists. It never
     * throws, changes no table, and always ends with `loading` false; an earlier
     * error message is not cleared.
     */
    method FetchAnswers(activeFault: Option<string>, resetFault: Option<string>)
      modifies this
      ensures !loading
      ensures activeFault.None? && resetFault.None? ==>
        activeAnswers == NewestFirst(db.answers) && resetAnswersList == NewestResetFirst(db.resetAnswers)
        && error == old(error)
      ensures activeFault.Some? || resetFault.Some? ==>
        activeAnswers == old(activeAnswers) && resetAnswersList == old(resetAnswersList)
        && error == Some(if activeFault.Some? then activeFault.value else resetFault.value)
      ensures (activeAnswers, resetAnswersList, error)
        == Refreshed(old(activeAnswers), old(resetAnswersList), old(error), db.answers, db.resetAnswers,
                     activeFault, resetFault)
    {
      loading := true;
      var active := db.SelectAnswersNewestFirst(activeFault);
      if active.Err? {
        error := Some(activeFault.value);
        loading := false;
        return;
      }
      var reset := db.SelectResetNewestFirst(resetFault);
      if reset.Err? {
        error := Some(resetFault.value);
        loading := false;
        return;
      }
      activeAnswers := active.value;
      resetAnswersList := reset.value;
      loading := false;
    }

    /**
     * `submitAnswer`: refused when the single-row lookup yields a row for the
     * user (its own failure is ignored); otherwise exactly one row is inserted
     * and `reset_answers` is untouched. Store errors are returned, not dropped.
     * When the lookup succeeds, a table with at most one row per user keeps that
     * property.
     * A failure leaves the hook's state untouched; success ends with the lists
     * and error message of the closing refresh over the new tables.
     */
    method SubmitAnswer(username: string, answer: string, now: Timestamp, faults: Faults)
      returns (r: Result<Row, HookError>)
      requires db.Valid()
      modifies this, db
      ensures db.Valid() && db.resetAnswers == old(db.resetAnswers)
      ensures faults.read.None? && ExistingRow(old(db.answers), username).Some? ==>
        r == Err(AlreadySubmitted) && db.answers == old(db.answers)
      ensures (faults.read.Some? || ExistingRow(old(db.answers), username).None?) && faults.insert.Some? ==>
        r == Err(Store(Failed(faults.insert.value))) && db.answers == old(db.answers)
      ensures (faults.read.Some? || ExistingRow(old(db.answers), username).None?) && faults.insert.None? ==>
        && r.Ok? && r.value.username == username && r.value.answer == answer && r.value.timestamp == now
        && r.value.id !in IdsOf(old(db.answers))
        && db.answers == old(db.answers) + [r.value]
        && !loading
      ensures faults.read.None? && old(AtMostOnePerUser(db.answers)) ==> AtMostOnePerUser(db.answers)
      ensures r.Err? ==> unchanged(this)
      ensures r.Ok? ==>
        && !loading
        && (activeAnswers, resetAnswersList, error)
           == Refreshed(old(activeAnswers), old(resetAnswersList), old(error), db.answers, db.resetAnswers,
                        faults.refreshActive, faults.refreshReset)
    {
      var lookup := db.SelectSingleByUsername(username, faults.read);
      var existing := if lookup.Ok? then Some(lookup.value) else None;
      if existing.Some? {
        return Err(AlreadySubmitted);
      }
      ghost var before := db.answers;
      var inserted := db.InsertAnswer(username, answer, now, faults.insert);
      if inserted.Err? {
        return Err(Store(inserted.error));
      }
      if faults.read.None? && AtMostOnePerUser(before) {
        InsertKeepsAtMostOne(before, inserted.value);
      }
      FetchAnswers(faults.refreshActive, faults.refreshReset);
      r := Ok(inserted.value);
    }

    /**
     * `handleReset`: read a snapshot of `answers`; if it is empty nothing happens.
     * Otherwise insert the stamped snapshot into `reset_answers`, then delete the
     * snapshot's ids from `answers`. A failed step ends the operation with its
     * error and no later step runs, so no snapshotted row is ever in neither
     * table; only a failed delete leaves rows in both.
     * A failure leaves the hook's state untouched; success ends with the lists
     * and error message of the closing refresh over the new tables.
     */
    method HandleReset(clock: Clock, faults: Faults) returns (r: Result<(), HookError>)
      requires db.Valid()
      modifies this, db
      ensures db.Valid()
      ensures NoneLost(old(db.answers), db.answers, db.resetAnswers)
      ensures faults.read.Some? ==>
        r == Err(Store(Failed(faults.read.value)))
        && db.answers == old(db.answers) && db.resetAnswers == old(db.resetAnswers)
      ensures faults.read.None? && old(db.answers) == [] ==>
        r == Ok(()) && db.answers == old(db.answers) && db.resetAnswers == old(db.resetAnswers)
        && unchanged(this)
      ensures faults.read.None? && old(db.answers) != [] && faults.insert.Some? ==>
        r == Err(Store(Failed(faults.insert.value)))
        && db.answers == old(db.answers) && db.resetAnswers == old(db.resetAnswers)
      ensures faults.read.None? && old(db.answers) != [] && faults.insert.None? ==>
        db.resetAnswers == old(db.resetAnswers) + StampRows(old(db.answers), clock)
      ensures faults.read.None? && old(db.answers) != [] && faults.insert.None? && faults.delete.Some? ==>
        r == Err(Store(Failed(faults.delete.value))) && db.answers == old(db.answers)
      ensures faults.read.None? && old(db.answers) != [] && faults.insert.None? && faults.delete.None? ==>
        r == Ok(()) && db.answers == WithoutIds(old(db.answers), IdsOf(old(db.answers)))
      ensures r.Err? ==> unchanged(this)
      ensures r.Ok? && old(db.answers) != [] ==>
        && !loading
        && (activeAnswers, resetAnswersList, error)
           == Refreshed(old(activeAnswers), old(resetAnswersList), old(error), db.answers, db.resetAnswers,
                        faults.refreshActive, faults.refreshReset)
    {
      var snapshot := db.SelectAnswers(faults.read);
      if snapshot.Err? {
        return Err(Store(snapshot.error));
      }
      var rows := snapshot.value;
      if |rows| > 0 {
        var insertError := db.InsertResetRows(StampRows(rows, clock), faults.insert);
        if insertError.Some? {
          return Err(Store(insertError.value));
        }
        ArchivedStamped(old(db.resetAnswers), rows, clock);
        var deleteError := db.DeleteIds(IdsOf(rows), faults.delete);
        if deleteError.Some? {
          return Err(Store(deleteError.value));
        }
        FetchAnswers(faults.refreshActive, faults.refreshReset);
      }
      r := Ok(());
    }

    /**
     * `resetIndividualAnswer(id)`: the lookup fails unless exactly one row has the
     * id; then that row, stamped, is inserted into `reset_answers` and deleted
     * from `answers`. Every other row of both tables is untouched, a failed step
     * ends the operation with its error, and the row is never in neither table.
     * A failure leaves the hook's state untouched; success ends with the lists
     * and error message of the closing refresh over the new tables.
     */
    method ResetIndividualAnswer(id: nat, now: Timestamp, faults: Faults) returns (r: Result<(), HookError>)
      requires db.Valid()
      modifies this, db
      ensures db.Valid()
      ensures NoneLost(old(db.answers), db.answers, db.resetAnswers)
      ensures faults.read.Some? ==>
        r == Err(Store(Failed(faults.read.value)))
        && db.answers == old(db.answers) && db.resetAnswers == old(db.resetAnswers)
      ensures faults.read.None? && |WithId(old(db.answers), id)| != 1 ==>
        r == Err(Store(NotExactlyOneRow))
        && db.answers == old(db.answers) && db.resetAnswers == old(db.resetAnswers)
      ensures faults.read.None? && |WithId(old(db.answers), id)| == 1 ==>
        var row := WithId(old(db.answers), id)[0];
        && (faults.insert.Some? ==>
              r == Err(Store(Failed(faults.insert.value)))
              && db.answers == old(db.answers) && db.resetAnswers == old(db.resetAnswers))
        && (faults.insert.None? ==> db.resetAnswers == old(db.resetAnswers) + [ResetRow(row, now)])
        && (faults.insert.None? && faults.delete.Some? ==>
              r == Err(Store(Failed(faults.delete.value))) && db.answers == old(db.answers))
        && (faults.insert.None? && faults.delete.None? ==>
              r == Ok(()) && db.answers == WithoutIds(old(db.answers), {id})
              && |db.answers| == |old(db.answers)| - 1 && row !in db.answers
              && (forall x :: x in old(db.answers) && x.id != id ==> x in db.answers))
      ensures r.Err? ==> unchanged(this)
      ensures r.Ok? ==>
        && !loading
        && (activeAnswers, resetAnswersList, error)
           == Refreshed(old(activeAnswers), old(resetAnswersList), old(error), db.answers, db.resetAnswers,
                        faults.refreshActive, faults.refreshReset)
    {
      var found := db.SelectSingleById(id, faults.read);
      if found.Err? {
        return Err(Store(found.error));
      }
      var row := found.value;
      WithIdRows(old(db.answers), id);
      var insertError := db.InsertResetRows([ResetRow(row, now)], faults.insert);
      if insertError.Some? {
        return Err(Store(insertError.value));
      }
      assert ArchivedRows(db.resetAnswers) == ArchivedRows(old(db.resetAnswers)) + [row];
      var deleteError := db.DeleteIds({id}, faults.delete);
      if deleteError.Some? {
        return Err(Store(deleteError.value));
      }
      DeleteOneId(old(db.answers), id);
      forall x | x in old(db.answers) ensures x in db.answers || x in ArchivedRows(db.resetAnswers) {
        WithoutIdsExact(old(db.answers), {id}, x);
        if x.id == id {
          WithIdUnique(old(db.answers), id, x);
        }
      }
      FetchAnswers(faults.refreshActive, faults.refreshReset);
      r := Ok(());
    }
  }

  /** A row of `t` with the id is the one `WithId` holds when it holds exactly one. */
  lemma {:induction false} WithIdUnique(t: seq<Row>, id: nat, x: Row)
    requires |WithId(t, id)| == 1 && x in t && x.id == id
    ensures x == WithId(t, id)[0]
  {
    WithIdHas(t, id, x);
  }

  lemma {:induction false} WithIdHas(t: seq<Row>, id: nat, x: Row)
    requires x in t && x.id == id
    ensures x in WithId(t, id)
  {
    if x != t[|t| - 1] {
      assert t == t[..|t| - 1] + [t[|t| - 1]];
      assert x in t[..|t| - 1];
      WithIdHas(t[..|t| - 1], id, x);
    }
  }
}
