/**
 The idempotency-key protocol: many requests, one table of keys, a clock, crashes and a purge.

 A state holds the committed rows and where every request stands in `run`; an action is one of the
 things that can happen next. Reading a row and deleting it are two moves, as they are two
 statements of the source, so anything may happen in between. Deletes and updates name the row by
 its surrogate id, and inserts are refused by the unique key.

 Times are in seconds. The table also carries a log of every answer ever stored, which no request
 reads: it is what the theorems speak about.
 */
module Idempotency {
  import opened Wrappers

  const STALE_AFTER: int := 600
  const DAY: int := 86400
  const KEPT_LONGER: int := 7 * DAY

  datatype Key = Key(workspace: string, principal: string, key: string)

  /** The X-ARGUS-Captured-At header: absent, unreadable, or the moment the person captured the command. */
  datatype Captured = Live | Malformed | At(time: int)

  datatype Request = Request(key: Key, hash: string, captured: Captured)

  datatype Response = Response(status: nat, body: string)

  datatype Progress = InProgress | Done(response: Response)

  datatype Row = Row(key: Key, hash: string, created: int, expires: int, progress: Progress)

  datatype Answer =
    | Ran(response: Response)
    | Raised
    | Replayed(id: nat, response: Response)
    | Mismatch
    | Busy
    | TooOld
    | BadCapture

  /** Where a request stands. `checked` is when it passed the expiry check, `since` when it reserved its row. */
  datatype Point =
    | Arrived
    | Dropping(id: nat)
    | Checking
    | Reserving(checked: int)
    | Rereading
    | Executing(id: nat, checked: int, since: int)
    | Answered(answer: Answer)
    | Crashed

  datatype Process = Process(request: Request, point: Point)

  /** One stored answer: the request, when it was checked and reserved, and when its answer was stored. */
  datatype Stored = Stored(id: nat, request: Request, checked: int, reserved: int, at: int, expires: int,
                           response: Response)

  datatype Table = Table(now: int, rows: map<nat, Row>, next: nat, stored: seq<Stored>)

  datatype State = State(table: Table, processes: map<nat, Process>)

  /** What one request can do next. */
  datatype Move = LookUp | Drop | Check | Reserve | Reread | Finish(response: Response) | Fail | Crash

  datatype Action = Tick(to: int) | Purge | Arrive(p: nat, request: Request) | Act(p: nat, move: Move)

  // ------------------------------------------------------------------ the rules of the source

  predicate Keeps(response: Response) {
    response.status < 500 && response.status !in {401, 426, 429}
  }

  predicate Takeable(row: Row, now: int) {
    row.expires < now || (row.progress.InProgress? && row.created < now - STALE_AFTER)
  }

  predicate Expired(captured: Captured, now: int, d: nat) {
    captured.At? && now - captured.time > d
  }

  function AnswerFrom(id: nat, row: Row, request: Request): Answer {
    if row.hash != request.hash then Mismatch
    else match row.progress
      case InProgress => Busy
      case Done(response) => Replayed(id, response)
  }

  ghost function Find(rows: map<nat, Row>, key: Key): (found: Option<nat>)
    ensures found.Some? ==> found.value in rows && rows[found.value].key == key
    ensures found.None? ==> forall id :: id in rows ==> rows[id].key != key
  {
    if exists id :: id in rows && rows[id].key == key then
      var id :| id in rows && rows[id].key == key;
      Some(id)
    else
      None
  }

  function Reservation(t: Table, request: Request, d: nat): Row {
    Row(request.key, request.hash, t.now, t.now + d + KEPT_LONGER, InProgress)
  }

  predicate Can(point: Point, m: Move) {
    match m
    case LookUp => point.Arrived?
    case Drop => point.Dropping?
    case Check => point.Checking?
    case Reserve => point.Reserving?
    case Reread => point.Rereading?
    case Finish(_) => point.Executing?
    case Fail => point.Executing?
    case Crash => !point.Answered? && !point.Crashed?
  }

  /** The table after a move of request `x`. An answer that is not kept, and an endpoint that raises,
      delete the row; a kept answer is written on the row, when it is still there. */
  ghost function TableAfter(t: Table, x: Process, m: Move, d: nat): Table
    requires Can(x.point, m)
  {
    match m
    case Drop => t.(rows := t.rows - {x.point.id})
    case Reserve =>
      if Find(t.rows, x.request.key).Some? then t
      else t.(rows := t.rows[t.next := Reservation(t, x.request, d)], next := t.next + 1)
    case Finish(response) =>
      var id := x.point.id;
      if !Keeps(response) then t.(rows := t.rows - {id})
      else if id !in t.rows then t
      else t.(rows := t.rows[id := t.rows[id].(progress := Done(response))],
              stored := t.stored + [Entry(t, x, response, d)])
    case Fail => t.(rows := t.rows - {x.point.id})
    case _ => t
  }

  function Entry(t: Table, x: Process, response: Response, d: nat): Stored
    requires x.point.Executing?
  {
    Stored(x.point.id, x.request, x.point.checked, x.point.since, t.now, x.point.since + d + KEPT_LONGER, response)
  }

  /** Where request `x` stands after its move. An update that finds no row ends the request in an error. */
  ghost function PointAfter(t: Table, x: Process, m: Move, d: nat): Point
    requires Can(x.point, m)
  {
    var request := x.request;
    match m
    case LookUp => (
      match Find(t.rows, request.key)
      case None => Checking
      case Some(id) =>
        if Takeable(t.rows[id], t.now) then Dropping(id) else Answered(AnswerFrom(id, t.rows[id], request)))
    case Drop => Checking
    case Check =>
      if request.captured.Malformed? then Answered(BadCapture)
      else if Expired(request.captured, t.now, d) then Answered(TooOld)
      else Reserving(t.now)
    case Reserve =>
      if Find(t.rows, request.key).Some? then Rereading else Executing(t.next, x.point.checked, t.now)
    case Reread => (
      match Find(t.rows, request.key)
      case None => Answered(Busy)
      case Some(id) => Answered(AnswerFrom(id, t.rows[id], request)))
    case Finish(response) =>
      if Keeps(response) && x.point.id !in t.rows then Answered(Raised) else Answered(Ran(response))
    case Fail => Answered(Raised)
    case Crash => Crashed
  }

  function Purged(t: Table): Table {
    t.(rows := map id | id in t.rows && !(t.rows[id].expires < t.now) :: t.rows[id])
  }

  // ------------------------------------------------------------------ runs

  predicate Enabled(s: State, a: Action) {
    match a
    case Tick(to) => s.table.now <= to
    case Purge => true
    case Arrive(p, _) => p !in s.processes
    case Act(p, m) => p in s.processes && Can(s.processes[p].point, m)
  }

  ghost function Next(s: State, a: Action, d: nat): State
    requires Enabled(s, a)
  {
    match a
    case Tick(to) => s.(table := s.table.(now := to))
    case Purge => s.(table := Purged(s.table))
    case Arrive(p, request) => s.(processes := s.processes[p := Process(request, Arrived)])
    case Act(p, m) =>
      var x := s.processes[p];
      State(TableAfter(s.table, x, m, d), s.processes[p := x.(point := PointAfter(s.table, x, m, d))])
  }

  function Start(now: int): State {
    State(Table(now, map[], 0, []), map[])
  }

  /** The state after a run of actions, or nothing when one of them was not possible. */
  ghost function Reach(s: State, run: seq<Action>, d: nat): Option<State>
    decreases |run|
  {
    if run == [] then Some(s)
    else if !Enabled(s, run[0]) then None
    else Reach(Next(s, run[0], d), run[1..], d)
  }

  ghost predicate Reachable(s: State, d: nat) {
    exists now, run :: Reach(Start(now), run, d) == Some(s)
  }

  // ------------------------------------------------------------------ what every state keeps

  /** An answer stored within STALE_AFTER of its reservation. */
  predicate Prompt(e: Stored) {
    e.at <= e.reserved + STALE_AFTER
  }

  predicate InTime(captured: Captured, checked: int, d: nat) {
    !captured.Malformed? && (captured.At? ==> checked <= captured.time + d)
  }

  predicate EntryOk(t: Table, e: Stored, d: nat) {
    && e.id < t.next
    && e.checked <= e.reserved <= e.at <= t.now
    && e.expires == e.reserved + d + KEPT_LONGER
    && InTime(e.request.captured, e.checked, d)
    && (e.id in t.rows ==>
          t.rows[e.id] == Row(e.request.key, e.request.hash, e.reserved, e.expires, Done(e.response)))
    && (Prompt(e) && t.now <= e.expires ==> e.id in t.rows)
  }

  /** Two entries of the log, the first stored before the second. */
  predicate EntriesOk(e: Stored, f: Stored) {
    e.id != f.id && (Prompt(e) && e.request.key == f.request.key ==> e.expires < f.reserved)
  }

  ghost predicate Logged(t: Table, id: nat, key: Key, hash: string, response: Response) {
    exists i :: 0 <= i < |t.stored| && t.stored[i].id == id && t.stored[i].response == response
      && t.stored[i].request.key == key && t.stored[i].request.hash == hash
  }

  ghost predicate RowOk(t: Table, id: nat, row: Row, d: nat) {
    && id < t.next
    && row.created <= t.now
    && row.expires == row.created + d + KEPT_LONGER
    && (row.progress.Done? ==> Logged(t, id, row.key, row.hash, row.progress.response))
  }

  ghost predicate OneRowPerKey(t: Table) {
    forall a, b :: a in t.rows && b in t.rows && t.rows[a].key == t.rows[b].key ==> a == b
  }

  ghost predicate TableOk(t: Table, d: nat) {
    && OneRowPerKey(t)
    && (forall id :: id in t.rows ==> RowOk(t, id, t.rows[id], d))
    && (forall i :: 0 <= i < |t.stored| ==> EntryOk(t, t.stored[i], d))
    && (forall i, j :: 0 <= i < j < |t.stored| ==> EntriesOk(t.stored[i], t.stored[j]))
  }

  /** The answers stored under an id, if any, came later than STALE_AFTER after their reservation. */
  ghost predicate OnlyLate(t: Table, id: nat) {
    forall i :: 0 <= i < |t.stored| && t.stored[i].id == id ==> !Prompt(t.stored[i])
  }

  ghost predicate NotLogged(t: Table, id: nat) {
    forall i :: 0 <= i < |t.stored| ==> t.stored[i].id != id
  }

  /** Every prompt answer stored under this key had expired before `since`. */
  ghost predicate AllExpiredBefore(t: Table, key: Key, since: int) {
    forall i :: 0 <= i < |t.stored| && t.stored[i].request.key == key && Prompt(t.stored[i]) ==>
      t.stored[i].expires < since
  }

  ghost predicate ProcessOk(t: Table, x: Process, d: nat) {
    match x.point
    case Dropping(id) =>
      && id < t.next
      && (id in t.rows ==>
            || t.rows[id].expires < t.now
            || (t.rows[id].created + STALE_AFTER < t.now && OnlyLate(t, id)))
    case Reserving(checked) => checked <= t.now && InTime(x.request.captured, checked, d)
    case Executing(id, checked, since) =>
      && id < t.next
      && checked <= since <= t.now
      && InTime(x.request.captured, checked, d)
      && (id in t.rows ==>
            && t.rows[id] == Row(x.request.key, x.request.hash, since, since + d + KEPT_LONGER, InProgress)
            && AllExpiredBefore(t, x.request.key, since))
      && (id !in t.rows ==> since + STALE_AFTER < t.now)
      && NotLogged(t, id)
    case Answered(answer) =>
      answer.Replayed? ==> Logged(t, answer.id, x.request.key, x.request.hash, answer.response)
    case _ => true
  }

  /** Two requests that execute hold different rows; under one key, the earlier one is long overdue. */
  predicate Apart(x: Process, y: Process) {
    x.point.Executing? && y.point.Executing? ==>
      && x.point.id != y.point.id
      && (x.request.key == y.request.key ==>
            if x.point.id < y.point.id then x.point.since + STALE_AFTER < y.point.since
            else y.point.since + STALE_AFTER < x.point.since)
  }

  ghost predicate Inv(s: State, d: nat) {
    && TableOk(s.table, d)
    && (forall p :: p in s.processes ==> ProcessOk(s.table, s.processes[p], d))
    && (forall p, q :: p in s.processes && q in s.processes && p != q ==> Apart(s.processes[p], s.processes[q]))
  }

  // ------------------------------------------------------------------ each action keeps it

  lemma LoggedStays(t: Table, u: Table, id: nat, key: Key, hash: string, response: Response)
    requires Logged(t, id, key, hash, response) && t.stored <= u.stored
    ensures Logged(u, id, key, hash, response)
  {
    var i :| 0 <= i < |t.stored| && t.stored[i].id == id && t.stored[i].response == response
             && t.stored[i].request.key == key && t.stored[i].request.hash == hash;
    assert u.stored[i] == t.stored[i];
  }

  lemma MoveKeepsRow(t: Table, x: Process, m: Move, id: nat, d: nat)
    requires TableOk(t, d) && ProcessOk(t, x, d) && Can(x.point, m)
    requires id in TableAfter(t, x, m, d).rows
    ensures RowOk(TableAfter(t, x, m, d), id, TableAfter(t, x, m, d).rows[id], d)
  {
    var u := TableAfter(t, x, m, d);
    if id in t.rows && t.rows[id].progress.Done? {
      LoggedStays(t, u, id, t.rows[id].key, t.rows[id].hash, t.rows[id].progress.response);
    }
    if id in t.rows && u.rows[id] != t.rows[id] {
      assert u.stored[|t.stored|].id == id;
    }
  }

  lemma MoveKeepsTable(t: Table, x: Process, m: Move, d: nat)
    requires TableOk(t, d) && ProcessOk(t, x, d) && Can(x.point, m)
    ensures TableOk(TableAfter(t, x, m, d), d)
  {
    var u := TableAfter(t, x, m, d);
    forall id | id in u.rows ensures RowOk(u, id, u.rows[id], d) {
      MoveKeepsRow(t, x, m, id, d);
    }
  }

  lemma MoveKeepsMover(t: Table, x: Process, m: Move, d: nat)
    requires TableOk(t, d) && ProcessOk(t, x, d) && Can(x.point, m)
    ensures ProcessOk(TableAfter(t, x, m, d), x.(point := PointAfter(t, x, m, d)), d)
  {
  }

  lemma MoveKeepsOther(t: Table, x: Process, m: Move, y: Process, d: nat)
    requires TableOk(t, d) && ProcessOk(t, x, d) && Can(x.point, m)
    requires ProcessOk(t, y, d) && Apart(x, y)
    ensures ProcessOk(TableAfter(t, x, m, d), y, d)
    ensures Apart(x.(point := PointAfter(t, x, m, d)), y)
    ensures Apart(y, x.(point := PointAfter(t, x, m, d)))
  {
    if y.point.Answered? && y.point.answer.Replayed? {
      LoggedStays(t, TableAfter(t, x, m, d), y.point.answer.id, y.request.key, y.request.hash,
                  y.point.answer.response);
    }
  }

  lemma TickKeeps(t: Table, to: int, d: nat)
    requires TableOk(t, d) && t.now <= to
    ensures TableOk(t.(now := to), d)
    ensures forall y :: ProcessOk(t, y, d) ==> ProcessOk(t.(now := to), y, d)
  {
    var u := t.(now := to);
    forall id, key, hash, response | Logged(t, id, key, hash, response)
      ensures Logged(u, id, key, hash, response)
    {
      LoggedStays(t, u, id, key, hash, response);
    }
  }

  lemma PurgeKeeps(t: Table, d: nat)
    requires TableOk(t, d)
    ensures TableOk(Purged(t), d)
    ensures forall y :: ProcessOk(t, y, d) ==> ProcessOk(Purged(t), y, d)
  {
    var u := Purged(t);
    forall id, key, hash, response | Logged(t, id, key, hash, response)
      ensures Logged(u, id, key, hash, response)
    {
      LoggedStays(t, u, id, key, hash, response);
    }
  }

  lemma NextKeeps(s: State, a: Action, d: nat)
    requires Inv(s, d) && Enabled(s, a)
    ensures Inv(Next(s, a, d), d)
  {
    match a
    case Tick(to) => TickKeeps(s.table, to, d);
    case Purge => PurgeKeeps(s.table, d);
    case Arrive(p, request) =>
    case Act(p, m) =>
      var x := s.processes[p];
      MoveKeepsTable(s.table, x, m, d);
      MoveKeepsMover(s.table, x, m, d);
      forall q | q in s.processes && q != p
        ensures ProcessOk(TableAfter(s.table, x, m, d), s.processes[q], d)
        ensures Apart(x.(point := PointAfter(s.table, x, m, d)), s.processes[q])
        ensures Apart(s.processes[q], x.(point := PointAfter(s.table, x, m, d)))
      {
        MoveKeepsOther(s.table, x, m, s.processes[q], d);
      }
  }

  lemma {:induction false} RunKeeps(s: State, run: seq<Action>, d: nat)
    requires Inv(s, d) && Reach(s, run, d).Some?
    ensures Inv(Reach(s, run, d).value, d)
    decreases |run|
  {
    if run != [] {
      NextKeeps(s, run[0], d);
      RunKeeps(Next(s, run[0], d), run[1..], d);
    }
  }

  /** Every reachable state satisfies the invariant. */
  lemma ReachableOk(s: State, d: nat)
    requires Reachable(s, d)
    ensures Inv(s, d)
  {
    var now, run :| Reach(Start(now), run, d) == Some(s);
    RunKeeps(Start(now), run, d);
  }

  // ------------------------------------------------------------------ what follows

  /** However requests interleave, crash, expire and are purged: once an answer has been stored within
      STALE_AFTER of its reservation, the same key is reserved and stored again only after that row has
      expired, and only for a command captured more than seven days after the first reservation, less
      the time the second request took from its expiry check to its reservation. */
  lemma StoredAgainOnlyAfterExpiry(s: State, d: nat, i: nat, j: nat)
    requires Reachable(s, d) && i < j < |s.table.stored|
    requires s.table.stored[i].request.key == s.table.stored[j].request.key && Prompt(s.table.stored[i])
    ensures s.table.stored[i].reserved + d + KEPT_LONGER < s.table.stored[j].reserved
    ensures match s.table.stored[j].request.captured
            case At(c) => s.table.stored[i].reserved + KEPT_LONGER
                          < c + (s.table.stored[j].reserved - s.table.stored[j].checked)
            case Live => true
            case Malformed => false
  {
    ReachableOk(s, d);
    assert EntriesOk(s.table.stored[i], s.table.stored[j]);
  }

  /** An answer to one command (its key, its capture time `c`), stored promptly, reserved at most `lag` after
      its expiry check, for a command captured no later than `lag` short of seven days after the reservation. */
  predicate Regular(e: Stored, key: Key, c: int, lag: nat) {
    && e.request.key == key && e.request.captured == At(c)
    && Prompt(e)
    && e.reserved <= e.checked + lag
    && c + lag <= e.reserved + KEPT_LONGER
  }

  /** So such a command is stored as done at most once. */
  lemma CommandStoredOnce(s: State, d: nat, key: Key, c: int, lag: nat, i: nat, j: nat)
    requires Reachable(s, d) && i < |s.table.stored| && j < |s.table.stored|
    requires Regular(s.table.stored[i], key, c, lag) && Regular(s.table.stored[j], key, c, lag)
    ensures i == j
  {
    if i < j {
      StoredAgainOnlyAfterExpiry(s, d, i, j);
    } else if j < i {
      StoredAgainOnlyAfterExpiry(s, d, j, i);
    }
  }

  /** A request executes, and holds its row. */
  predicate Holds(s: State, p: nat) {
    p in s.processes && s.processes[p].point.Executing? && s.processes[p].point.id in s.table.rows
  }

  /** Until it expires, a promptly stored answer is what every retry gets, and nothing is run again. */
  lemma RetryReplays(s: State, d: nat, i: nat, p: nat)
    requires Reachable(s, d) && i < |s.table.stored| && Enabled(s, Act(p, LookUp))
    requires Prompt(s.table.stored[i]) && s.table.now <= s.table.stored[i].expires
    requires s.processes[p].request.key == s.table.stored[i].request.key
    ensures var e := s.table.stored[i];
            Next(s, Act(p, LookUp), d) == s.(processes := s.processes[p := s.processes[p].(
              point := Answered(if s.processes[p].request.hash == e.request.hash
                                then Replayed(e.id, e.response) else Mismatch))])
  {
    ReachableOk(s, d);
    assert EntryOk(s.table, s.table.stored[i], d);
  }

  /** What a request finds out from the row of its key: an expired or a stale row is to be dropped; else, by what the
      row holds, a request with another hash is refused, one for the same command that is still at work is told
      so, and one that is done gets its answer. Nothing else changes. */
  lemma RowIsTold(s: State, d: nat, p: nat, id: nat)
    requires Reachable(s, d) && Enabled(s, Act(p, LookUp)) && id in s.table.rows
    requires s.table.rows[id].key == s.processes[p].request.key
    ensures var row, x := s.table.rows[id], s.processes[p];
            Next(s, Act(p, LookUp), d) == s.(processes := s.processes[p := x.(point :=
              if row.expires < s.table.now || (row.progress == InProgress && row.created + STALE_AFTER < s.table.now)
              then Dropping(id)
              else if row.hash != x.request.hash then Answered(Mismatch)
              else if row.progress == InProgress then Answered(Busy)
              else Answered(Replayed(id, row.progress.response)))])
  {
    ReachableOk(s, d);
    assert Find(s.table.rows, s.processes[p].request.key) == Some(id);
  }

  /** A retry of a command that is still at work, and not for too long, is told so: it is not run again, nor
      refused as another. */
  lemma RunningIsBusy(s: State, d: nat, p: nat, q: nat)
    requires Reachable(s, d) && Enabled(s, Act(p, LookUp)) && Holds(s, q)
    requires s.processes[p].request.key == s.processes[q].request.key
    requires s.table.now <= s.processes[q].point.since + STALE_AFTER
    ensures Next(s, Act(p, LookUp), d) == s.(processes := s.processes[p := s.processes[p].(point :=
              Answered(if s.processes[p].request.hash == s.processes[q].request.hash then Busy else Mismatch))])
  {
    ReachableOk(s, d);
    assert ProcessOk(s.table, s.processes[q], d);
    RowIsTold(s, d, p, s.processes[q].point.id);
  }

  /** A request whose insert was refused is answered by the row there is by then, of whatever age; when it is gone
      already, it is told to try again. */
  lemma RereadIsTold(s: State, d: nat, p: nat, id: nat)
    requires Reachable(s, d) && Enabled(s, Act(p, Reread))
    ensures id in s.table.rows && s.table.rows[id].key == s.processes[p].request.key ==>
              var row, x := s.table.rows[id], s.processes[p];
              Next(s, Act(p, Reread), d) == s.(processes := s.processes[p := x.(point := Answered(
                if row.hash != x.request.hash then Mismatch
                else if row.progress == InProgress then Busy
                else Replayed(id, row.progress.response)))])
    ensures (forall i :: i in s.table.rows ==> s.table.rows[i].key != s.processes[p].request.key) ==>
              Next(s, Act(p, Reread), d) == s.(processes := s.processes[p := s.processes[p].(point := Answered(Busy))])
  {
    ReachableOk(s, d);
    if id in s.table.rows && s.table.rows[id].key == s.processes[p].request.key {
      assert Find(s.table.rows, s.processes[p].request.key) == Some(id);
    }
  }

  predicate Ended(point: Point) {
    point.Answered? || point.Crashed?
  }

  /** No request is ever stuck, and none goes on that has ended: until then there is one move it can make, or crash;
      of an execution, whether it answers or raises is open. A crash ends it, and raising deletes its row. */
  lemma GoesOnUntilEnded(s: State, d: nat, p: nat)
    requires p in s.processes
    ensures var point := s.processes[p].point;
            && (Ended(point) <==> forall m :: !Can(point, m)) && (Can(point, Crash) <==> !Ended(point))
            && (!Ended(point) ==> exists m :: m != Crash && Can(point, m))
            && (forall m, n :: Can(point, m) && Can(point, n) && m != Crash && n != Crash ==>
                  m == n || (point.Executing? && (m.Finish? || m == Fail) && (n.Finish? || n == Fail)))
    ensures Enabled(s, Act(p, Crash)) ==>
              Next(s, Act(p, Crash), d) == s.(processes := s.processes[p := s.processes[p].(point := Crashed)])
    ensures Enabled(s, Act(p, Fail)) ==>
              && s.processes[p].point.Executing? && s.processes[p].point.id !in Next(s, Act(p, Fail), d).table.rows
              && Next(s, Act(p, Fail), d).processes == s.processes[p := s.processes[p].(point := Answered(Raised))]
  {
    var point := s.processes[p].point;
    match point
    case Arrived => assert Can(point, LookUp);
    case Dropping(_) => assert Can(point, Drop);
    case Checking => assert Can(point, Check);
    case Reserving(_) => assert Can(point, Reserve);
    case Rereading => assert Can(point, Reread);
    case Executing(_, _, _) => assert Can(point, Fail);
    case _ =>
  }

  /** An endpoint's answer goes to whoever asked, and onto its row, unless it is a server error, 401, 426 or 429: then
      the row is deleted. Where the row of an answer to be kept is gone, the request fails, and nothing is stored. */
  lemma FinishedIs(s: State, d: nat, p: nat, response: Response)
    requires Enabled(s, Act(p, Finish(response)))
    ensures var x, u := s.processes[p], Next(s, Act(p, Finish(response)), d);
            var id, kept := x.point.id, response.status < 500 && response.status !in {401, 426, 429};
            var row := if id in s.table.rows then Some(s.table.rows[id]) else None;
            && u.processes == s.processes[p := x.(point :=
                 Answered(if kept && row.None? then Raised else Ran(response)))]
            && u.table.now == s.table.now && u.table.next == s.table.next
            && u.table.rows == (if !kept then s.table.rows - {id}
                                else if row.None? then s.table.rows
                                else s.table.rows[id := row.value.(progress := Done(response))])
            && u.table.stored == s.table.stored + if kept && row.Some? then [Entry(s.table, x, response, d)] else []
  {
  }

  /** A purge leaves the rows that have not expired, as they are, and no other. */
  lemma PurgeTakesTheExpired(s: State, d: nat)
    ensures var u := Next(s, Purge, d);
            && u == s.(table := s.table.(rows := u.table.rows))
            && (forall id :: id in u.table.rows <==> id in s.table.rows && s.table.now <= s.table.rows[id].expires)
            && (forall id :: id in u.table.rows ==> u.table.rows[id] == s.table.rows[id])
  {
  }

  /** A replay gives back the answer stored for a request with the same key and the same hash. */
  lemma ReplayIsOfTheSameRequest(s: State, d: nat, p: nat) returns (i: nat)
    requires Reachable(s, d) && p in s.processes
    requires s.processes[p].point.Answered? && s.processes[p].point.answer.Replayed?
    ensures i < |s.table.stored|
    ensures s.table.stored[i].request.key == s.processes[p].request.key
    ensures s.table.stored[i].request.hash == s.processes[p].request.hash
    ensures s.table.stored[i].response == s.processes[p].point.answer.response
  {
    ReachableOk(s, d);
    var answer, request := s.processes[p].point.answer, s.processes[p].request;
    i :| 0 <= i < |s.table.stored| && s.table.stored[i].id == answer.id
         && s.table.stored[i].response == answer.response
         && s.table.stored[i].request.key == request.key && s.table.stored[i].request.hash == request.hash;
  }

  lemma KeyHasOneRow(s: State, d: nat, a: nat, b: nat)
    requires Reachable(s, d) && a in s.table.rows && b in s.table.rows
    requires s.table.rows[a].key == s.table.rows[b].key
    ensures a == b
  {
    ReachableOk(s, d);
  }

  /** Two requests execute under one key only when one of them was reserved more than STALE_AFTER before
      the other. */
  lemma ExecutionsOverlapOnlyWhenStale(s: State, d: nat, p: nat, q: nat)
    requires Reachable(s, d) && p in s.processes && q in s.processes && p != q
    requires s.processes[p].point.Executing? && s.processes[q].point.Executing?
    requires s.processes[p].request.key == s.processes[q].request.key
    ensures s.processes[p].point.since + STALE_AFTER < s.processes[q].point.since
            || s.processes[q].point.since + STALE_AFTER < s.processes[p].point.since
  {
    ReachableOk(s, d);
    assert Apart(s.processes[p], s.processes[q]);
  }

  /** No request touches a row that is not its own, unless that row has expired or is older than
      STALE_AFTER: neither a taker nor a late finisher deletes, completes or overwrites a successor's row. */
  lemma FreshRowIsItsOwners(s: State, d: nat, a: Action, id: nat)
    requires Reachable(s, d) && Enabled(s, a) && id in s.table.rows
    requires id !in Next(s, a, d).table.rows || Next(s, a, d).table.rows[id] != s.table.rows[id]
    ensures || s.table.rows[id].expires < s.table.now
            || s.table.rows[id].created + STALE_AFTER < s.table.now
            || (&& a.Act? && s.processes[a.p].point.Executing? && s.processes[a.p].point.id == id
                && s.processes[a.p].request.key == s.table.rows[id].key
                && s.processes[a.p].point.since == s.table.rows[id].created
                && (a.move.Finish? || a.move.Fail?))
  {
    ReachableOk(s, d);
  }

  /** A stored answer that has not expired is lost only if it was stored too late. */
  lemma OnlyLateAnswersAreLost(s: State, d: nat, i: nat)
    requires Reachable(s, d) && i < |s.table.stored| && s.table.now <= s.table.stored[i].expires
    requires s.table.stored[i].id !in s.table.rows
    ensures s.table.stored[i].reserved + STALE_AFTER < s.table.stored[i].at
  {
    ReachableOk(s, d);
    assert EntryOk(s.table, s.table.stored[i], d);
  }

  lemma {:induction false} ReachOn(s: State, u: State, run: seq<Action>, a: Action, d: nat)
    requires Reach(s, run, d) == Some(u) && Enabled(u, a)
    ensures Reach(s, run + [a], d) == Some(Next(u, a, d))
    decreases |run|
  {
    if run == [] {
      assert run + [a] == [a] && [a][1..] == [];
    } else {
      assert (run + [a])[0] == run[0] && (run + [a])[1..] == run[1..] + [a];
      ReachOn(Next(s, run[0], d), u, run[1..], a, d);
    }
  }

  /** A run in which one request moves, and nothing else happens. */
  ghost predicate Alone(s: State, run: seq<Action>, u: State, d: nat, p: nat) {
    Reach(s, run, d) == Some(u) && forall i :: 0 <= i < |run| ==> run[i].Act? && run[i].p == p
  }

  lemma MovesOn(s: State, run: seq<Action>, u: State, d: nat, p: nat, m: Move) returns (more: seq<Action>, v: State)
    requires Alone(s, run, u, d, p) && Enabled(u, Act(p, m))
    ensures Alone(s, more, v, d, p) && v == Next(u, Act(p, m), d)
  {
    ReachOn(s, u, run, Act(p, m), d);
    more, v := run + [Act(p, m)], Next(u, Act(p, m), d);
  }

  /** A request that looks up a key whose row is absent, expired or stale comes to its check, and the key has no
      row. */
  lemma FreesTheKey(s: State, d: nat, p: nat) returns (run: seq<Action>, u: State)
    requires Reachable(s, d) && Enabled(s, Act(p, LookUp))
    requires forall id :: id in s.table.rows && s.table.rows[id].key == s.processes[p].request.key ==>
               Takeable(s.table.rows[id], s.table.now)
    ensures Alone(s, run, u, d, p) && p in u.processes && u.processes[p] == s.processes[p].(point := Checking)
    ensures u.table == s.table.(rows := u.table.rows) && Find(u.table.rows, s.processes[p].request.key).None?
  {
    ReachableOk(s, d);
    run, u := [], s;
    run, u := MovesOn(s, run, u, d, p, LookUp);
    if u.processes[p].point.Dropping? {
      run, u := MovesOn(s, run, u, d, p, Drop);
    }
  }

  /** A key whose row is absent, expired or stale is free: a retry that nobody interrupts executes. */
  lemma FreeKeyRunsAgain(s: State, d: nat, p: nat) returns (run: seq<Action>)
    requires Reachable(s, d) && Enabled(s, Act(p, LookUp))
    requires !s.processes[p].request.captured.Malformed?
    requires !Expired(s.processes[p].request.captured, s.table.now, d)
    requires forall id :: id in s.table.rows && s.table.rows[id].key == s.processes[p].request.key ==>
               Takeable(s.table.rows[id], s.table.now)
    ensures forall i :: 0 <= i < |run| ==> run[i].Act? && run[i].p == p
    ensures Reach(s, run, d).Some?
    ensures var u := Reach(s, run, d).value;
            && p in u.processes
            && u.processes[p] == Process(s.processes[p].request, Executing(s.table.next, s.table.now, s.table.now))
            && s.table.next in u.table.rows
            && u.table.rows[s.table.next] == Reservation(s.table, s.processes[p].request, d)
  {
    var u;
    run, u := FreesTheKey(s, d, p);
    run, u := MovesOn(s, run, u, d, p, Check);
    run, u := MovesOn(s, run, u, d, p, Reserve);
  }

  // ------------------------------------------------------------------ where the promise ends

  lemma Then(s: State, a: Action, d: nat)
    requires Reachable(s, d) && Enabled(s, a)
    ensures Reachable(Next(s, a, d), d)
  {
    var now, run :| Reach(Start(now), run, d) == Some(s);
    ReachOn(Start(now), s, run, a, d);
  }

  lemma Does(s: State, a: Action, d: nat) returns (u: State)
    requires Reachable(s, d) && Enabled(s, a)
    ensures Reachable(u, d) && u == Next(s, a, d)
  {
    Then(s, a, d);
    u := Next(s, a, d);
  }

  /** A run up to the moment the first request (0) executes. */
  lemma Executes(request: Request, d: nat) returns (s: State)
    requires !request.captured.Malformed? && !Expired(request.captured, 0, d)
    ensures Reachable(s, d)
    ensures var row := Row(request.key, request.hash, 0, d + KEPT_LONGER, InProgress);
            s == State(Table(0, map[0 := row], 1, []), map[0 := Process(request, Executing(0, 0, 0))])
  {
    s := Start(0);
    assert Reach(s, [], d) == Some(s);
    s := Does(s, Arrive(0, request), d);
    s := Does(s, Act(0, LookUp), d);
    s := Does(s, Act(0, Check), d);
    s := Does(s, Act(0, Reserve), d);
  }

  // ------------------------------------------------------------------ exactly when a stored command is stored again

  /** Another answer to a request was stored since `s`, promptly, by a request that reserved its row at its check. */
  ghost predicate StoredAgain(s: State, u: State, request: Request) {
    exists j :: |s.table.stored| <= j < |u.table.stored| && u.table.stored[j].request == request
                && Prompt(u.table.stored[j]) && u.table.stored[j].reserved == u.table.stored[j].checked
  }

  ghost predicate CanBecome(s: State, u: State, d: nat) {
    exists run :: Reach(s, run, d) == Some(u)
  }

  lemma {:induction false} LogGrows(s: State, run: seq<Action>, u: State, d: nat)
    requires Reach(s, run, d) == Some(u)
    ensures s.table.stored <= u.table.stored
    decreases |run|
  {
    if run != [] {
      LogGrows(Next(s, run[0], d), run[1..], u, d);
    }
  }

  /** Whatever else is going on: a command promptly stored, if the client says it was captured more than seven
      days after it was reserved or does not say when, can be stored again once its row has expired. */
  lemma LateCaptureIsStoredAgain(s: State, d: nat, i: nat) returns (u: State)
    requires Reachable(s, d) && i < |s.table.stored| && s.table.now <= s.table.stored[i].expires
    requires Prompt(s.table.stored[i]) && !s.table.stored[i].request.captured.Malformed?
    requires var e := s.table.stored[i]; e.request.captured.At? ==> e.reserved + KEPT_LONGER < e.request.captured.time
    ensures CanBecome(s, u, d) && StoredAgain(s, u, s.table.stored[i].request)
  {
    ReachableOk(s, d);
    var e := s.table.stored[i];
    assert EntryOk(s.table, e, d);
    var q := Unused(s.processes.Keys);
    u := Expires(s, d, e.expires + 1, q, e.request);
    ExpiredKeyIsFree(s, u, d, i);
    u := StoresAlone(s, u, d, q);
  }

  /** The clock moves on, and a request arrives. */
  lemma Expires(s: State, d: nat, to: int, q: nat, request: Request) returns (u: State)
    requires Reachable(s, d) && s.table.now <= to && q !in s.processes
    ensures CanBecome(s, u, d) && Reachable(u, d)
    ensures u == State(s.table.(now := to), s.processes[q := Process(request, Arrived)])
  {
    ReachOn(s, s, [], Tick(to), d);
    u := Does(s, Tick(to), d);
    ReachOn(s, u, [] + [Tick(to)], Arrive(q, request), d);
    u := Does(u, Arrive(q, request), d);
  }

  /** A request in time whose key is free runs, and its answer is stored. */
  lemma StoresAlone(s: State, v: State, d: nat, q: nat) returns (u: State)
    requires Reachable(s, d) && CanBecome(s, v, d) && v.table.stored == s.table.stored && Enabled(v, Act(q, LookUp))
    requires !v.processes[q].request.captured.Malformed? && !Expired(v.processes[q].request.captured, v.table.now, d)
    requires forall id :: id in v.table.rows && v.table.rows[id].key == v.processes[q].request.key ==>
               Takeable(v.table.rows[id], v.table.now)
    ensures CanBecome(s, u, d) && StoredAgain(s, u, v.processes[q].request)
  {
    var before :| Reach(s, before, d) == Some(v);
    ReachableOn(s, before, v, d);
    var run := FreeKeyRunsAgain(v, d, q);
    var w := Reach(v, run, d).value;
    LogGrows(v, run, w, d);
    AloneIsStill(v, run, w, d, q);
    var finish := Act(q, Finish(Response(200, "")));
    ReachOn(v, w, run, finish, d);
    u := Next(w, finish, d);
    ReachBoth(s, before, v, run + [finish], d);
    assert u.table.stored[|w.table.stored|].request == v.processes[q].request;
  }

  /** While only requests move the clock stands. */
  lemma {:induction false} AloneIsStill(s: State, run: seq<Action>, u: State, d: nat, p: nat)
    requires Alone(s, run, u, d, p)
    ensures u.table.now == s.table.now
    decreases |run|
  {
    if run != [] {
      AloneIsStill(Next(s, run[0], d), run[1..], u, d, p);
    }
  }

  /** Past the expiry of a promptly stored answer its key has no other row. */
  lemma ExpiredKeyIsFree(s: State, v: State, d: nat, i: nat)
    requires Inv(s, d) && i < |s.table.stored| && s.table.now <= s.table.stored[i].expires
    requires Prompt(s.table.stored[i]) && v.table.rows == s.table.rows && s.table.stored[i].expires < v.table.now
    ensures forall id :: id in v.table.rows && v.table.rows[id].key == s.table.stored[i].request.key ==>
              Takeable(v.table.rows[id], v.table.now)
  {
    var e := s.table.stored[i];
    assert EntryOk(s.table, e, d) && e.id in s.table.rows;
  }

  /** So a command promptly stored, whose answer has not expired, can be promptly stored again, reserved at its
      check, exactly when it was captured more than seven days after its reservation, or no one said when. */
  lemma CanBeStoredAgainIff(s: State, d: nat, i: nat)
    requires Reachable(s, d) && i < |s.table.stored| && s.table.now <= s.table.stored[i].expires
    requires Prompt(s.table.stored[i])
    ensures (exists u :: CanBecome(s, u, d) && StoredAgain(s, u, s.table.stored[i].request)) <==>
              match s.table.stored[i].request.captured
              case At(c) => s.table.stored[i].reserved + KEPT_LONGER < c
              case Live => true
              case Malformed => false
  {
    var e := s.table.stored[i];
    if exists u :: CanBecome(s, u, d) && StoredAgain(s, u, e.request) {
      var u :| CanBecome(s, u, d) && StoredAgain(s, u, e.request);
      var run :| Reach(s, run, d) == Some(u);
      ReachableOn(s, run, u, d);
      LogGrows(s, run, u, d);
      var j :| |s.table.stored| <= j < |u.table.stored| && u.table.stored[j].request == e.request
               && Prompt(u.table.stored[j]) && u.table.stored[j].reserved == u.table.stored[j].checked;
      assert u.table.stored[i] == e;
      StoredAgainOnlyAfterExpiry(u, d, i, j);
    }
    if e.request.captured.Live? || (e.request.captured.At? && e.reserved + KEPT_LONGER < e.request.captured.time) {
      var u := LateCaptureIsStoredAgain(s, d, i);
    }
  }

  /** From the start: a command that says it was captured a week and a second from now. */
  lemma FutureCaptureIsStoredAgain(request: Request, d: nat) returns (s: State)
    requires request.captured == At(KEPT_LONGER + 1)
    ensures Reachable(s, d)
    ensures exists i, j :: 0 <= i < j < |s.table.stored| && s.table.stored[i].request == request
                           && s.table.stored[j].request == request
                           && Prompt(s.table.stored[i]) && Prompt(s.table.stored[j])
  {
    var first := Executes(request, d);
    first := Does(first, Act(0, Finish(Response(200, ""))), d);
    assert first.table.stored == [Stored(0, request, 0, 0, 0, d + KEPT_LONGER, Response(200, ""))];
    s := LateCaptureIsStoredAgain(first, d, 0);
    var run :| Reach(first, run, d) == Some(s);
    ReachableOn(first, run, s, d);
    LogGrows(first, run, s, d);
    assert s.table.stored[0] == first.table.stored[0];
  }

  // ------------------------------------------------------------------ exactly when a command is stored twice at once

  ghost predicate ClockStands(run: seq<Action>) {
    forall i :: 0 <= i < |run| ==> !run[i].Tick?
  }

  ghost predicate Continues(s: State, run: seq<Action>, u: State, d: nat) {
    ClockStands(run) && Reach(s, run, d) == Some(u)
  }

  /** Two answers to one request were stored since `s`. */
  ghost predicate StoredTwiceSince(s: State, u: State, request: Request) {
    exists i, j :: |s.table.stored| <= i < j < |u.table.stored|
      && u.table.stored[i].request == request && u.table.stored[j].request == request
  }

  lemma GoOn(s: State, run: seq<Action>, u: State, a: Action, d: nat) returns (more: seq<Action>, v: State)
    requires Continues(s, run, u, d) && Enabled(u, a) && !a.Tick?
    ensures Continues(s, more, v, d) && v == Next(u, a, d)
  {
    ReachOn(s, u, run, a, d);
    more, v := run + [a], Next(u, a, d);
  }

  lemma {:induction false} Unused(used: set<nat>) returns (q: nat)
    ensures forall p :: p in used ==> p < q
    decreases used
  {
    q := 0;
    if used != {} {
      var p :| p in used;
      var r := Unused(used - {p});
      q := if p < r then r else p + 1;
      assert forall o :: o in used ==> o == p || o in used - {p};
    }
  }

  /** A retry arrives and reads the row of an overdue execution as stale. */
  lemma ReadAsStale(s: State, d: nat, p: nat, q: nat) returns (run: seq<Action>, u: State)
    requires Reachable(s, d) && Holds(s, p) && q !in s.processes
    requires s.processes[p].point.since + STALE_AFTER < s.table.now
    ensures Continues(s, run, u, d) && u.table == s.table
    ensures u.processes == s.processes[q := Process(s.processes[p].request, Dropping(s.processes[p].point.id))]
  {
    ReachableOk(s, d);
    var x := s.processes[p];
    run, u := [], s;
    run, u := GoOn(s, run, u, Arrive(q, x.request), d);
    assert s.table.rows[x.point.id].key == x.request.key;
    assert Find(s.table.rows, x.request.key) == Some(x.point.id);
    run, u := GoOn(s, run, u, Act(q, LookUp), d);
  }

  /** Then the answer is stored, and only then the retry deletes the row. */
  lemma StoredThenDropped(s: State, d: nat, p: nat, q: nat, response: Response, run: seq<Action>, u: State)
    returns (more: seq<Action>, v: State)
    requires Reachable(s, d) && Holds(s, p) && q !in s.processes && Keeps(response)
    requires Continues(s, run, u, d) && u.table == s.table
    requires u.processes == s.processes[q := Process(s.processes[p].request, Dropping(s.processes[p].point.id))]
    ensures Continues(s, more, v, d)
    ensures v.table == s.table.(rows := s.table.rows - {s.processes[p].point.id},
                                stored := s.table.stored + [Entry(s.table, s.processes[p], response, d)])
    ensures q in v.processes && v.processes[q] == Process(s.processes[p].request, Checking)
    ensures Find(v.table.rows, s.processes[p].request.key).None?
  {
    ReachableOk(s, d);
    var x := s.processes[p];
    more, v := GoOn(s, run, u, Act(p, Finish(response)), d);
    more, v := GoOn(s, more, v, Act(q, Drop), d);
    assert s.table.rows[x.point.id].key == x.request.key;
  }

  /** And the retry, still in time, runs the command again. */
  lemma RunsAgain(s: State, d: nat, q: nat, response: Response, run: seq<Action>, u: State)
    returns (more: seq<Action>, v: State)
    requires Continues(s, run, u, d) && q in u.processes && u.processes[q].point == Checking && Keeps(response)
    requires Find(u.table.rows, u.processes[q].request.key).None? && u.table.next !in u.table.rows
    requires !u.processes[q].request.captured.Malformed? && !Expired(u.processes[q].request.captured, u.table.now, d)
    ensures Continues(s, more, v, d)
    ensures |v.table.stored| == |u.table.stored| + 1 && u.table.stored <= v.table.stored
    ensures v.table.stored[|u.table.stored|].request == u.processes[q].request
  {
    more, v := GoOn(s, run, u, Act(q, Check), d);
    more, v := GoOn(s, more, v, Act(q, Reserve), d);
    more, v := GoOn(s, more, v, Act(q, Finish(response)), d);
  }

  /** Whatever else is going on: an execution that holds its row for longer than STALE_AFTER, of a command still
      in time, can be stored twice from here, with the clock standing. */
  lemma OverdueIsStoredTwice(s: State, d: nat, p: nat) returns (run: seq<Action>, u: State)
    requires Reachable(s, d) && Holds(s, p) && !Expired(s.processes[p].request.captured, s.table.now, d)
    requires s.processes[p].point.since + STALE_AFTER < s.table.now
    ensures Continues(s, run, u, d) && StoredTwiceSince(s, u, s.processes[p].request)
  {
    ReachableOk(s, d);
    var q := Unused(s.processes.Keys);
    var response := Response(200, "");
    run, u := ReadAsStale(s, d, p, q);
    run, u := StoredThenDropped(s, d, p, q, response, run, u);
    ghost var first := u;
    assert s.table.next !in u.table.rows;
    run, u := RunsAgain(s, d, q, response, run, u);
    assert u.table.stored[|s.table.stored|] == first.table.stored[|s.table.stored|];
  }

  /** A row from before is as it was, but for its answer; any other was reserved just now. */
  ghost predicate RowSince(t: Table, u: Table, id: nat)
    requires id in u.rows
  {
    if id < t.next then
      id in t.rows && u.rows[id].created == t.rows[id].created && u.rows[id].key == t.rows[id].key
    else u.rows[id].created == t.now
  }

  /** What is stored while the clock stands was reserved just now, or by a request that held its row at first. */
  ghost predicate From(t: Table, e: Stored) {
    e.reserved == t.now || (e.id in t.rows && t.rows[e.id].created == e.reserved && t.rows[e.id].key == e.request.key)
  }

  ghost predicate Since(t: Table, u: Table) {
    && u.now == t.now && t.next <= u.next && |t.stored| <= |u.stored|
    && (forall id {:trigger RowSince(t, u, id)} :: id in u.rows ==> RowSince(t, u, id))
    && (forall i {:trigger From(t, u.stored[i])} :: |t.stored| <= i < |u.stored| ==> From(t, u.stored[i]))
  }

  lemma MoveKeepsRowSince(t: Table, u: Table, x: Process, m: Move, d: nat, id: nat)
    requires Since(t, u) && TableOk(u, d) && ProcessOk(u, x, d) && Can(x.point, m) && id in TableAfter(u, x, m, d).rows
    ensures RowSince(t, TableAfter(u, x, m, d), id)
  {
    if id in u.rows {
      assert RowSince(t, u, id);
    }
  }

  lemma MoveKeepsSince(t: Table, u: Table, x: Process, m: Move, d: nat)
    requires Since(t, u) && TableOk(u, d) && ProcessOk(u, x, d) && Can(x.point, m)
    ensures Since(t, TableAfter(u, x, m, d))
  {
    var v := TableAfter(u, x, m, d);
    forall id | id in v.rows ensures RowSince(t, v, id) {
      MoveKeepsRowSince(t, u, x, m, d, id);
    }
    forall i | |t.stored| <= i < |v.stored| ensures From(t, v.stored[i]) {
      if i < |u.stored| {
        assert From(t, u.stored[i]);
      } else {
        assert RowSince(t, u, x.point.id);
      }
    }
  }

  lemma {:induction false} SinceThen(t: Table, u: State, run: seq<Action>, d: nat)
    requires Since(t, u.table) && Inv(u, d) && ClockStands(run) && Reach(u, run, d).Some?
    ensures Since(t, Reach(u, run, d).value.table)
    decreases |run|
  {
    if run != [] {
      var v := Next(u, run[0], d);
      NextKeeps(u, run[0], d);
      assert !run[0].Tick?;
      if run[0].Act? {
        MoveKeepsSince(t, u.table, u.processes[run[0].p], run[0].move, d);
      } else {
        PurgeKeepsSince(t, u.table);
      }
      assert ClockStands(run[1..]) by {
        assert forall i :: 0 <= i < |run| - 1 ==> run[1..][i] == run[i + 1];
      }
      SinceThen(t, v, run[1..], d);
    }
  }

  lemma PurgeKeepsSince(t: Table, u: Table)
    requires Since(t, u)
    ensures Since(t, Purged(u))
  {
    forall id | id in Purged(u).rows ensures RowSince(t, Purged(u), id) {
      assert RowSince(t, u, id);
    }
  }

  /** Of two answers under one key, the first was reserved long before now. */
  lemma FirstIsOverdue(t: Table, d: nat, i: nat, j: nat)
    requires TableOk(t, d) && i < j < |t.stored| && t.stored[i].request.key == t.stored[j].request.key
    ensures t.stored[i].reserved + STALE_AFTER < t.now
  {
    assert EntryOk(t, t.stored[i], d) && EntryOk(t, t.stored[j], d) && EntriesOk(t.stored[i], t.stored[j]);
  }

  /** If two answers to a command that holds its row are stored while the clock stands, it was overdue. */
  lemma StoredTwiceIsOverdue(s: State, d: nat, p: nat, run: seq<Action>, u: State)
    requires Reachable(s, d) && Holds(s, p) && Continues(s, run, u, d)
    requires StoredTwiceSince(s, u, s.processes[p].request)
    ensures s.processes[p].point.since + STALE_AFTER < s.table.now
  {
    ReachableOk(s, d);
    RunKeeps(s, run, d);
    SinceThen(s.table, s, run, d);
    var request := s.processes[p].request;
    var i, j :| |s.table.stored| <= i < j < |u.table.stored|
      && u.table.stored[i].request == request && u.table.stored[j].request == request;
    FirstIsOverdue(u.table, d, i, j);
    assert From(s.table, u.table.stored[i]);
    assert u.table.stored[i].id == s.processes[p].point.id;
  }

  /** So a command that holds its row and is still in time can be stored twice, the clock standing, exactly when
      it has been executing for longer than STALE_AFTER. */
  lemma CanBeStoredTwiceIff(s: State, d: nat, p: nat)
    requires Reachable(s, d) && Holds(s, p) && !Expired(s.processes[p].request.captured, s.table.now, d)
    ensures (exists run, u :: Continues(s, run, u, d) && StoredTwiceSince(s, u, s.processes[p].request)) <==>
              s.processes[p].point.since + STALE_AFTER < s.table.now
  {
    if exists run, u :: Continues(s, run, u, d) && StoredTwiceSince(s, u, s.processes[p].request) {
      var run, u :| Continues(s, run, u, d) && StoredTwiceSince(s, u, s.processes[p].request);
      StoredTwiceIsOverdue(s, d, p, run, u);
    }
    if s.processes[p].point.since + STALE_AFTER < s.table.now {
      var run, u := OverdueIsStoredTwice(s, d, p);
    }
  }

  lemma {:induction false} ReachBoth(s: State, run: seq<Action>, u: State, more: seq<Action>, d: nat)
    requires Reach(s, run, d) == Some(u)
    ensures Reach(s, run + more, d) == Reach(u, more, d)
    decreases |run|
  {
    if run == [] {
      assert run + more == more;
    } else {
      assert (run + more)[0] == run[0] && (run + more)[1..] == run[1..] + more;
      ReachBoth(Next(s, run[0], d), run[1..], u, more, d);
    }
  }

  lemma ReachableOn(s: State, run: seq<Action>, u: State, d: nat)
    requires Reachable(s, d) && Reach(s, run, d) == Some(u)
    ensures Reachable(u, d)
  {
    var now, before :| Reach(Start(now), before, d) == Some(s);
    ReachBoth(Start(now), before, s, run, d);
  }

  /** From the start: one second too late is enough. */
  lemma LateAnswerLetsACommandRunTwice(request: Request, d: nat) returns (s: State)
    requires request.captured == At(0) && STALE_AFTER < d
    ensures Reachable(s, d) && StoredTwiceSince(Start(0), s, request)
  {
    var late := Executes(request, d);
    late := Does(late, Tick(STALE_AFTER + 1), d);
    var run;
    run, s := OverdueIsStoredTwice(late, d, 0);
    ReachableOn(late, run, s, d);
  }

  // ------------------------------------------------------------------ the request hash

  /** What the hash is taken over: the parts, each but the last closed by a zero. */
  function Framed(verb: string, path: string, query: string, body: string): string {
    verb + ['\0'] + path + ['\0'] + query + ['\0'] + body
  }

  lemma FirstPart(a: string, rest: string, b: string, others: string)
    requires '\0' !in a && '\0' !in b
    requires a + ['\0'] + rest == b + ['\0'] + others
    ensures a == b && rest == others
  {
    var s, t := a + ['\0'] + rest, b + ['\0'] + others;
    assert s[|a|] == '\0' && t[|b|] == '\0';
    assert forall k :: 0 <= k < |a| ==> s[k] == a[k];
    assert forall k :: 0 <= k < |b| ==> t[k] == b[k];
    assert |a| == |b|;
    assert a == s[..|a|] && b == t[..|b|];
    assert rest == s[|a| + 1..] && others == t[|b| + 1..];
  }

  /** Two requests whose method, path and query hold no zero are framed alike only when they are the same. */
  lemma FramedOnce(m: string, path: string, query: string, body: string,
                   n: string, road: string, ask: string, load: string)
    requires '\0' !in m && '\0' !in path && '\0' !in query
    requires '\0' !in n && '\0' !in road && '\0' !in ask
    requires Framed(m, path, query, body) == Framed(n, road, ask, load)
    ensures m == n && path == road && query == ask && body == load
  {
    var z := ['\0'];
    assert Framed(m, path, query, body) == m + z + (path + z + (query + z + body));
    assert Framed(n, road, ask, load) == n + z + (road + z + (ask + z + load));
    FirstPart(m, path + z + (query + z + body), n, road + z + (ask + z + load));
    FirstPart(path, query + z + body, road, ask + z + load);
    FirstPart(query, body, ask, load);
  }
}
