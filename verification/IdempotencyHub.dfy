/**
 The table and the requests of the idempotency protocol as the server holds them: fields that every
 statement of `run`, `_execute` and `purge` changes. Each method is one committed statement and is
 tied to the action of the protocol it performs; `Run` is a whole request that nobody interrupts.
 */
module IdempotencyHub {
  import opened Idempotency
  import opened Wrappers

  /** What a request gets when no other request comes between its statements. `endpoint` is what the
      endpoint would answer, or nothing when it raises. */
  ghost function Outcome(t: Table, request: Request, endpoint: Option<Response>, d: nat): Answer {
    var found := Find(t.rows, request.key);
    if found.Some? && !Takeable(t.rows[found.value], t.now) then
      AnswerFrom(found.value, t.rows[found.value], request)
    else if request.captured.Malformed? then BadCapture
    else if Expired(request.captured, t.now, d) then TooOld
    else if endpoint.Some? then Ran(endpoint.value)
    else Raised
  }

  /** The rows such a request leaves behind. */
  ghost function RowsLeft(t: Table, request: Request, endpoint: Option<Response>, d: nat): map<nat, Row> {
    var found := Find(t.rows, request.key);
    if found.Some? && !Takeable(t.rows[found.value], t.now) then t.rows
    else
      var others := if found.Some? then t.rows - {found.value} else t.rows;
      if request.captured.Malformed? || Expired(request.captured, t.now, d) then others
      else if endpoint.None? || !Keeps(endpoint.value) then others
      else others[t.next := Reservation(t, request, d).(progress := Done(endpoint.value))]
  }

  /** Deleting an expired or stale row of its own key changes nothing for a request. */
  lemma FreedAlike(t: Table, u: Table, request: Request, endpoint: Option<Response>, d: nat)
    requires var found := Find(t.rows, request.key);
             && (found.Some? ==> Takeable(t.rows[found.value], t.now))
             && u == t.(rows := if found.Some? then t.rows - {found.value} else t.rows)
    requires Find(u.rows, request.key).None?
    ensures Outcome(u, request, endpoint, d) == Outcome(t, request, endpoint, d)
    ensures RowsLeft(u, request, endpoint, d) == RowsLeft(t, request, endpoint, d)
  {
  }

  /** A request whose key is free and that is in time: it runs, and its answer is kept or leaves nothing. */
  lemma FreeKeyRuns(t: Table, request: Request, endpoint: Option<Response>, d: nat)
    requires Find(t.rows, request.key).None? && t.next !in t.rows
    requires !request.captured.Malformed? && !Expired(request.captured, t.now, d)
    ensures Outcome(t, request, endpoint, d) == if endpoint.Some? then Ran(endpoint.value) else Raised
    ensures RowsLeft(t, request, endpoint, d)
         == if endpoint.Some? && Keeps(endpoint.value)
            then t.rows[t.next := Reservation(t, request, d).(progress := Done(endpoint.value))]
            else t.rows[t.next := Reservation(t, request, d)] - {t.next}
  {
    assert t.rows[t.next := Reservation(t, request, d)] - {t.next} == t.rows;
  }

  class Hub {
    const d: nat
    var now: int
    var rows: map<nat, Row>
    var next: nat
    var processes: map<nat, Process>
    ghost var stored: seq<Stored>

    ghost function View(): State
      reads this
    {
      State(Table(now, rows, next, stored), processes)
    }

    ghost predicate Valid()
      reads this
    {
      Inv(View(), d)
    }

    constructor (now: int, d: nat)
      ensures Valid() && View() == Start(now) && this.d == d
    {
      this.d := d;
      this.now := now;
      rows, next, processes, stored := map[], 0, map[], [];
    }

    /** The row of a key, if there is one. */
    method Select(key: Key) returns (found: Option<nat>)
      requires Valid()
      ensures found == Find(rows, key)
    {
      var ids := rows.Keys;
      while ids != {}
        invariant ids <= rows.Keys
        invariant forall id :: id in rows && id !in ids ==> rows[id].key != key
        decreases ids
      {
        var id :| id in ids;
        if rows[id].key == key {
          return Some(id);
        }
        ids := ids - {id};
      }
      return None;
    }

    method Place(p: nat, point: Point)
      requires p in processes
      modifies this`processes
      ensures processes == old(processes)[p := old(processes)[p].(point := point)]
    {
      processes := processes[p := processes[p].(point := point)];
    }

    method Arrive(p: nat, request: Request)
      requires Valid() && p !in processes
      modifies this
      ensures Valid() && View() == Next(old(View()), Action.Arrive(p, request), d)
    {
      processes := processes[p := Process(request, Arrived)];
      NextKeeps(old(View()), Action.Arrive(p, request), d);
    }

    method LookUp(p: nat)
      requires Valid() && Enabled(View(), Act(p, Move.LookUp))
      modifies this
      ensures Valid() && View() == Next(old(View()), Act(p, Move.LookUp), d)
    {
      var request := processes[p].request;
      var found := Select(request.key);
      if found.None? {
        Place(p, Checking);
      } else if Takeable(rows[found.value], now) {
        Place(p, Dropping(found.value));
      } else {
        Place(p, Answered(AnswerFrom(found.value, rows[found.value], request)));
      }
      NextKeeps(old(View()), Act(p, Move.LookUp), d);
    }

    method Drop(p: nat)
      requires Valid() && Enabled(View(), Act(p, Move.Drop))
      modifies this
      ensures Valid() && View() == Next(old(View()), Act(p, Move.Drop), d)
    {
      rows := rows - {processes[p].point.id};
      Place(p, Checking);
      NextKeeps(old(View()), Act(p, Move.Drop), d);
    }

    method Check(p: nat)
      requires Valid() && Enabled(View(), Act(p, Move.Check))
      modifies this
      ensures Valid() && View() == Next(old(View()), Act(p, Move.Check), d)
    {
      match processes[p].request.captured {
        case Malformed =>
          Place(p, Answered(BadCapture));
        case At(time) =>
          Place(p, if now - time > d then Answered(TooOld) else Reserving(now));
        case Live =>
          Place(p, Reserving(now));
      }
      NextKeeps(old(View()), Act(p, Move.Check), d);
    }

    method Reserve(p: nat)
      requires Valid() && Enabled(View(), Act(p, Move.Reserve))
      modifies this
      ensures Valid() && View() == Next(old(View()), Act(p, Move.Reserve), d)
    {
      var request := processes[p].request;
      var found := Select(request.key);
      ghost var after := Next(View(), Act(p, Move.Reserve), d);
      NextKeeps(View(), Act(p, Move.Reserve), d);
      if found.Some? {
        Place(p, Rereading);
        assert View() == after;
      } else {
        Place(p, Executing(next, processes[p].point.checked, now));
        rows := rows[next := Row(request.key, request.hash, now, now + d + KEPT_LONGER, InProgress)];
        next := next + 1;
        assert View().table == after.table;
        assert View() == after;
      }
    }

    method Reread(p: nat)
      requires Valid() && Enabled(View(), Act(p, Move.Reread))
      modifies this
      ensures Valid() && View() == Next(old(View()), Act(p, Move.Reread), d)
    {
      var request := processes[p].request;
      var found := Select(request.key);
      if found.None? {
        Place(p, Answered(Busy));
      } else {
        Place(p, Answered(AnswerFrom(found.value, rows[found.value], request)));
      }
      NextKeeps(old(View()), Act(p, Move.Reread), d);
    }

    method Finish(p: nat, response: Response)
      requires Valid() && Enabled(View(), Act(p, Move.Finish(response)))
      modifies this
      ensures Valid() && View() == Next(old(View()), Act(p, Move.Finish(response)), d)
    {
      var id := processes[p].point.id;
      if response.status >= 500 || response.status in {401, 426, 429} {
        rows := rows - {id};
        Place(p, Answered(Ran(response)));
      } else if id in rows {
        stored := stored + [Entry(View().table, processes[p], response, d)];
        rows := rows[id := rows[id].(progress := Done(response))];
        Place(p, Answered(Ran(response)));
      } else {
        Place(p, Answered(Raised));
      }
      NextKeeps(old(View()), Act(p, Move.Finish(response)), d);
    }

    method Fail(p: nat)
      requires Valid() && Enabled(View(), Act(p, Move.Fail))
      modifies this
      ensures Valid() && View() == Next(old(View()), Act(p, Move.Fail), d)
    {
      rows := rows - {processes[p].point.id};
      Place(p, Answered(Raised));
      NextKeeps(old(View()), Act(p, Move.Fail), d);
    }

    method Purge() returns (removed: nat)
      requires Valid()
      modifies this`rows
      ensures Valid() && View() == Next(old(View()), Action.Purge, d)
      ensures removed == |old(rows)| - |rows|
    {
      var before := rows;
      rows := map id | id in rows && !(rows[id].expires < now) :: rows[id];
      assert rows.Keys <= before.Keys;
      assert |before.Keys| == |rows.Keys| + |before.Keys - rows.Keys|;
      removed := |before| - |rows|;
      NextKeeps(old(View()), Action.Purge, d);
    }

    /** The lookup and, when it finds an expired or stale row, its deletion. */
    method Open(p: nat)
      requires Valid() && Enabled(View(), Act(p, Move.LookUp))
      modifies this
      ensures Valid() && View().table == old(View()).table.(rows := rows) && next !in rows
      ensures p in processes && (processes[p].point.Checking? ==> Find(rows, processes[p].request.key).None?)
      ensures var request, found := old(processes)[p].request, Find(old(rows), old(processes)[p].request.key);
              if found.Some? && !Takeable(old(rows)[found.value], now) then
                && rows == old(rows)
                && processes == old(processes)[p := Process(request,
                     Answered(AnswerFrom(found.value, rows[found.value], request)))]
              else
                && rows == (if found.Some? then old(rows) - {found.value} else old(rows))
                && processes == old(processes)[p := Process(request, Checking)]
    {
      LookUp(p);
      if processes[p].point.Dropping? {
        Drop(p);
      }
    }

    /** The expiry check and, when it passes, the reservation of a key that no row holds. */
    method Admit(p: nat)
      requires Valid() && Enabled(View(), Act(p, Move.Check)) && Find(rows, processes[p].request.key).None?
      modifies this
      ensures Valid() && now == old(now)
      ensures var request := old(processes)[p].request;
              if request.captured.Malformed? || Expired(request.captured, now, d) then
                && rows == old(rows) && next == old(next)
                && processes == old(processes)[p := Process(request,
                     Answered(if request.captured.Malformed? then BadCapture else TooOld))]
              else
                && rows == old(rows)[old(next) := Reservation(old(View()).table, request, d)]
                && processes == old(processes)[p := Process(request, Executing(old(next), now, now))]
    {
      Check(p);
      if processes[p].point.Reserving? {
        Reserve(p);
      }
    }

    /** The endpoint runs, and its answer is stored, dropped or lost. */
    method Execute(p: nat, endpoint: Option<Response>)
      requires Valid() && p in processes && processes[p].point.Executing? && processes[p].point.id in rows
      modifies this
      ensures Valid() && now == old(now)
      ensures processes == old(processes)[p := old(processes)[p].(point :=
                Answered(if endpoint.Some? then Ran(endpoint.value) else Raised))]
      ensures var id := old(processes)[p].point.id;
              rows == if endpoint.Some? && Keeps(endpoint.value)
                      then old(rows)[id := old(rows)[id].(progress := Done(endpoint.value))]
                      else old(rows) - {id}
    {
      match endpoint {
        case None => Fail(p);
        case Some(response) => Finish(p, response);
      }
    }

    /** The rest of a request whose key no row holds: checked, reserved and executed, or refused. */
    method Proceed(p: nat, endpoint: Option<Response>)
      requires Valid() && Enabled(View(), Act(p, Move.Check)) && Find(rows, processes[p].request.key).None?
      requires next !in rows
      modifies this
      ensures Valid() && now == old(now)
      ensures var request := old(processes)[p].request;
              && rows == RowsLeft(old(View()).table, request, endpoint, d)
              && processes == old(processes)[p := Process(request,
                   Answered(Outcome(old(View()).table, request, endpoint, d)))]
    {
      ghost var t, request := View().table, processes[p].request;
      Admit(p);
      if processes[p].point.Executing? {
        FreeKeyRuns(t, request, endpoint, d);
        Execute(p, endpoint);
      }
    }

    /** A whole request, from its lookup to its answer, with no other request in between. */
    method Run(p: nat, endpoint: Option<Response>) returns (answer: Answer)
      requires Valid() && Enabled(View(), Act(p, Move.LookUp))
      modifies this
      ensures Valid() && now == old(now)
      ensures var request := old(processes)[p].request;
              && answer == Outcome(old(View()).table, request, endpoint, d)
              && rows == RowsLeft(old(View()).table, request, endpoint, d)
              && processes == old(processes)[p := Process(request, Answered(answer))]
    {
      Open(p);
      if processes[p].point.Checking? {
        FreedAlike(old(View()).table, View().table, processes[p].request, endpoint, d);
        Proceed(p, endpoint);
      }
      return processes[p].point.answer;
    }
  }

  /** A request sent again while its kept answer is live gets that answer, leaves every row as it is, and
      its own endpoint does not matter; with another hash it is refused. */
  lemma SentAgain(t: Table, request: Request, response: Response, d: nat,
                  u: Table, retry: Request, endpoint: Option<Response>)
    requires TableOk(t, d) && Outcome(t, request, Some(response), d) == Ran(response) && Keeps(response)
    requires OneRowPerKey(u) && u.rows == RowsLeft(t, request, Some(response), d)
    requires t.now <= u.now <= t.now + d + KEPT_LONGER
    requires retry.key == request.key
    ensures Outcome(u, retry, endpoint, d) == if retry.hash == request.hash then Replayed(t.next, response)
                                              else Mismatch
    ensures RowsLeft(u, retry, endpoint, d) == u.rows
  {
    assert t.next in u.rows && u.rows[t.next].key == request.key;
    assert Find(u.rows, retry.key) == Some(t.next);
  }

  /** A request sent again while the first is at work, and not for too long, is told so, leaves every row as it is,
      and its endpoint does not matter; with another hash it is refused. */
  lemma SentWhileRunning(t: Table, d: nat, id: nat, retry: Request, endpoint: Option<Response>)
    requires TableOk(t, d) && id in t.rows && t.rows[id].key == retry.key && t.rows[id].progress.InProgress?
    requires t.now <= t.rows[id].created + STALE_AFTER
    ensures Outcome(t, retry, endpoint, d) == if retry.hash == t.rows[id].hash then Busy else Mismatch
    ensures RowsLeft(t, retry, endpoint, d) == t.rows
  {
    assert RowOk(t, id, t.rows[id], d);
    assert Find(t.rows, retry.key) == Some(id);
  }

  /** A request whose key is free: without a readable capture time, or captured longer ago than the retention, it is
      refused, and its endpoint does not matter; otherwise it runs. What is refused, or raises, leaves the key without
      a row, and every other row as it was. */
  lemma FreeKeyIsTold(t: Table, request: Request, endpoint: Option<Response>, d: nat)
    requires TableOk(t, d)
    requires forall id :: id in t.rows && t.rows[id].key == request.key ==>
               || t.rows[id].expires < t.now
               || (t.rows[id].progress == InProgress && t.rows[id].created + STALE_AFTER < t.now)
    ensures var answer, left := Outcome(t, request, endpoint, d), RowsLeft(t, request, endpoint, d);
            && answer == (match request.captured
                          case Malformed => BadCapture
                          case At(c) =>
                            if c + d < t.now then TooOld else if endpoint.Some? then Ran(endpoint.value) else Raised
                          case Live => if endpoint.Some? then Ran(endpoint.value) else Raised)
            && (!answer.Ran? ==>
                  forall id :: id in left <==> id in t.rows && t.rows[id].key != request.key)
            && (forall id :: id in t.rows && t.rows[id].key != request.key ==> id in left && left[id] == t.rows[id])
  {
    forall id | id in t.rows ensures RowOk(t, id, t.rows[id], d) {
    }
  }

  /** What a request that ran leaves behind: its key holds a row exactly when the answer was about the command,
      not a server error, nor about the caller or the moment; without the row a retry runs again. */
  lemma KeptIff(t: Table, request: Request, response: Response, d: nat)
    requires TableOk(t, d) && Outcome(t, request, Some(response), d) == Ran(response)
    ensures Find(RowsLeft(t, request, Some(response), d), request.key).Some? <==>
              response.status < 500 && response.status != 401 && response.status != 426 && response.status != 429
    ensures var u := t.(rows := RowsLeft(t, request, Some(response), d), next := t.next + 1);
            Find(u.rows, request.key).None? ==> Outcome(u, request, Some(response), d) == Ran(response)
  {
    var rows := RowsLeft(t, request, Some(response), d);
    if Keeps(response) {
      assert t.next in rows && rows[t.next].key == request.key;
    }
  }
}
