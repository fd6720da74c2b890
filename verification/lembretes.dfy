/** `GET`, `POST` and `DELETE /lembretes` over the `lembretes` table. A
    reminder fires on the day after its creation at the time of day the
    caller gives. Time is whole seconds since the Unix epoch, in UTC;
    PostgreSQL's `::time` cast is a parameter that gives the seconds since
    midnight, and the integer cast of the `:id` route parameter is another. */
module Lembretes {
  import opened Common
  import opened Sequences

  const Day: int := 24 * 60 * 60

  const FieldsRequired: string := "Informe pontoId, pontoNome, onibusId, onibusNome, onibusCodigo e horario."
  const Created: string := "Lembrete criado com sucesso."
  const CreateFailed: string := "Erro ao criar lembrete."
  const Removed: string := "Lembrete removido com sucesso."
  const RemoveFailed: string := "Erro ao remover lembrete."

  /** A row of `lembretes` (`RETURNING *`). */
  datatype Reminder = Reminder(id: nat, userId: UserId, onibusId: string, pontoId: string, pontoNome: string,
                               onibusNome: string, onibusCodigo: string, horario: int, reminderDatetime: int,
                               createdAt: int)

  /** A row of the list: every column but `user_id`. */
  datatype ReminderRow = ReminderRow(id: nat, pontoId: string, pontoNome: string, onibusId: string, onibusNome: string,
                                     onibusCodigo: string, horario: int, reminderDatetime: int, createdAt: int)

  /** The body of a 201 reply. */
  datatype CreatedBody = CreatedBody(message: string, lembrete: Reminder)

  datatype CreateRequest = CreateRequest(pontoId: JsValue, pontoNome: JsValue, onibusId: JsValue, onibusNome: JsValue,
                                         onibusCodigo: JsValue, horario: JsValue)

  /** What PostgreSQL's `time` type admits: `00:00:00` to `24:00:00`. */
  ghost predicate SoundTimeCast(castTime: string -> Option<int>)
  {
    forall s :: castTime(s).Some? ==> 0 <= castTime(s).value <= Day
  }

  /** Every id was drawn from the sequence, no row occurs twice and no two
      rows share an id. */
  ghost predicate RemindersInvariant(table: Serial<Reminder>)
  {
    && IdsDrawn(table, ReminderId)
    && (forall r :: multiset(table.rows)[r] <= 1)
    && (forall r, q :: r in table.rows && q in table.rows && r != q ==> r.id != q.id)
  }

  /** `date_trunc('day', t)` for a UTC timestamp. */
  function StartOfDay(t: int): (s: int)
    ensures s % Day == 0
    ensures t - Day < s <= t
  {
    (t / Day) * Day
  }

  /** `date_trunc('day', NOW() + INTERVAL '1 day') + horario::time`: the
      midnight that ends `now`'s day, plus the time of day. */
  function ReminderTime(now: int, horario: int): (t: int)
    ensures (t - horario) % Day == 0
    ensures now < t - horario <= now + Day
  {
    StartOfDay(now + Day) + horario
  }

  function ReminderId(r: Reminder): nat
  {
    r.id
  }

  predicate AllFieldsGiven(req: CreateRequest)
  {
    && Truthy(req.pontoId) && Truthy(req.pontoNome) && Truthy(req.onibusId)
    && Truthy(req.onibusNome) && Truthy(req.onibusCodigo) && Truthy(req.horario)
  }

  /** `POST /lembretes` by `user` at database time `now`. */
  function Create(table: Serial<Reminder>, user: UserId, req: CreateRequest, castTime: string -> Option<int>, now: int)
    : (res: (Reply<CreatedBody>, Serial<Reminder>))
    ensures !AllFieldsGiven(req) ==> res == (Reply(400, Error(FieldsRequired)), table)
    // A `horario` that is not a time fails the insert.
    ensures AllFieldsGiven(req) && castTime(Param(req.horario)).None? ==> res == (Reply(500, Error(CreateFailed)), table)
    ensures res.0.status != 201 ==> res.1 == table
    ensures res.0.status == 201 <==> AllFieldsGiven(req) && castTime(Param(req.horario)).Some?
    // 201: one row appended, owned by the caller, under the sequence's next
    // id, and returned. A failed cast is caught before the sequence is drawn.
    ensures res.0.status == 201 ==>
      && |res.1.rows| == |table.rows| + 1 && res.1.rows[..|table.rows|] == table.rows
      && res.1.next == table.next + 1
      && var r := res.1.rows[|table.rows|];
      && r.userId == user
      && r.id == table.next
      && (IdsDrawn(table, ReminderId) ==> forall i :: 0 <= i < |table.rows| ==> table.rows[i].id != r.id)
      && r.pontoId == Param(req.pontoId) && r.pontoNome == Param(req.pontoNome)
      && r.onibusId == Param(req.onibusId) && r.onibusNome == Param(req.onibusNome)
      && r.onibusCodigo == Param(req.onibusCodigo)
      && r.horario == castTime(Param(req.horario)).value
      && r.reminderDatetime == ReminderTime(now, r.horario)
      && r.createdAt == now
      && res.0.body == Json(CreatedBody(Created, r))
  {
    if !AllFieldsGiven(req) then (Reply(400, Error(FieldsRequired)), table)
    else
      match castTime(Param(req.horario))
      case None => (Reply(500, Error(CreateFailed)), table)
      case Some(h) =>
        var r := Reminder(table.next, user, Param(req.onibusId), Param(req.pontoId),
                          Param(req.pontoNome), Param(req.onibusNome), Param(req.onibusCodigo),
                          h, ReminderTime(now, h), now);
        (Reply(201, Json(CreatedBody(Created, r))), Append(table, r, ReminderId))
  }

  function RowOf(r: Reminder): ReminderRow
  {
    ReminderRow(r.id, r.pontoId, r.pontoNome, r.onibusId, r.onibusNome, r.onibusCodigo, r.horario,
                r.reminderDatetime, r.createdAt)
  }

  function Rows(table: seq<Reminder>): (rows: seq<ReminderRow>)
    ensures |rows| == |table|
    ensures forall i :: 0 <= i < |table| ==> rows[i] == RowOf(table[i])
    decreases |table|
  {
    if |table| == 0 then [] else [RowOf(table[0])] + Rows(table[1..])
  }

  lemma RowsMembers(table: seq<Reminder>)
    ensures forall x :: x in Rows(table) <==> exists r :: r in table && x == RowOf(r)
  {
    var view := Rows(table);
    forall x | x in view ensures exists r :: r in table && x == RowOf(r) {
      var i :| 0 <= i < |view| && view[i] == x;
      assert table[i] in table;
    }
    forall r | r in table ensures RowOf(r) in view {
      var i :| 0 <= i < |table| && table[i] == r;
      assert view[i] == RowOf(r);
    }
  }

  /** Among one user's reminders the view drops nothing that tells rows
      apart: each reminder's row occurs as often as the reminder. */
  lemma {:induction false} RowsCount(table: seq<Reminder>, r: Reminder)
    requires forall q :: q in table ==> q.userId == r.userId
    ensures multiset(Rows(table))[RowOf(r)] == multiset(table)[r]
    decreases |table|
  {
    if |table| > 0 {
      assert table == [table[0]] + table[1..];
      assert Rows(table) == [RowOf(table[0])] + Rows(table[1..]);
      RowsCount(table[1..], r);
    }
  }

  function OwnedBy(user: UserId): Reminder -> bool
  {
    (r: Reminder) => r.userId == user
  }

  /** `ORDER BY reminder_datetime`. */
  predicate Soonest(a: ReminderRow, b: ReminderRow)
  {
    a.reminderDatetime <= b.reminderDatetime
  }

  /** `GET /lembretes`: the caller's reminders, soonest first. */
  function List(table: Serial<Reminder>, user: UserId): (rows: seq<ReminderRow>)
    ensures forall x :: x in rows <==> exists r :: r in table.rows && r.userId == user && x == RowOf(r)
    ensures SortedBy(rows, Soonest)
    // One row per reminder of the caller: none is listed twice or dropped.
    ensures |rows| == |Filter(table.rows, OwnedBy(user))|
    ensures forall r :: r in table.rows && r.userId == user ==> multiset(rows)[RowOf(r)] == multiset(table.rows)[r]
  {
    var mine := Filter(table.rows, OwnedBy(user));
    assert forall r :: r in mine <==> r in table.rows && r.userId == user by {
      forall r ensures r in mine <==> r in table.rows && r.userId == user {
        assert OwnedBy(user)(r) == (r.userId == user);
      }
    }
    var view := Rows(mine);
    RowsMembers(mine);
    forall r | r in table.rows && r.userId == user ensures multiset(view)[RowOf(r)] == multiset(table.rows)[r] {
      RowsCount(mine, r);
      FilterCount(table.rows, OwnedBy(user), r);
    }
    assert TotalPreorder(Soonest);
    SortSorted(view, Soonest);
    var rows := Sort(view, Soonest);
    assert forall x :: x in rows <==> x in view by {
      forall x ensures x in rows <==> x in view {
        assert x in rows <==> x in multiset(rows);
        assert x in view <==> x in multiset(view);
      }
    }
    rows
  }

  /** Rows the delete leaves alone: `WHERE id = $1 AND user_id = $2` fails. */
  function Untouched(user: UserId, id: int): Reminder -> bool
  {
    (r: Reminder) => !(r.id == id && r.userId == user)
  }

  /** `DELETE /lembretes/:id`, with `castInt` PostgreSQL's cast of the route
      parameter to the integer column. A delete leaves the sequence alone. */
  function Delete(table: Serial<Reminder>, user: UserId, id: string, castInt: string -> Option<int>)
    : (res: (Reply<CreatedBody>, Serial<Reminder>))
    ensures castInt(id).None? ==> res == (Reply(500, Error(RemoveFailed)), table)
    // Success whether or not a row matched.
    ensures castInt(id).Some? ==> res.0 == Reply(200, Message(Removed))
    ensures res.1.next == table.next
    // Exactly the caller's row with that id goes.
    ensures castInt(id).Some? ==>
      forall r :: r in res.1.rows <==> r in table.rows && !(r.id == castInt(id).value && r.userId == user)
  {
    match castInt(id)
    case None => (Reply(500, Error(RemoveFailed)), table)
    case Some(n) =>
      var kept := Filter(table.rows, Untouched(user, n));
      (Reply(200, Message(Removed)), Serial(kept, table.next))
  }

  /** The reminder fires on the calendar day after `now`, at `horario`
      seconds past its midnight: the time of day can be read back from it. */
  lemma ReminderTimeDay(now: int, horario: int)
    requires 0 <= horario < Day
    ensures StartOfDay(ReminderTime(now, horario)) == StartOfDay(now) + Day
    ensures ReminderTime(now, horario) - StartOfDay(ReminderTime(now, horario)) == horario
  {
    var midnight := StartOfDay(now) + Day;
    SameMidnight(StartOfDay(now + Day), midnight);
    SameMidnight(StartOfDay(midnight + horario), midnight);
  }

  /** Two midnights less than a day apart are the same midnight. */
  lemma SameMidnight(a: int, b: int)
    requires a % Day == 0 && b % Day == 0
    requires b - Day < a < b + Day
    ensures a == b
  {
    var qa, qb := a / Day, b / Day;
    assert a == qa * Day && b == qb * Day;
    assert qb - 1 < qa < qb + 1;
  }

  /** With a time of day before midnight the reminder is strictly in the
      future and less than two days away; `24:00:00` reaches two days at most. */
  lemma ReminderTimeBounds(now: int, horario: int)
    requires 0 <= horario <= Day
    ensures now < ReminderTime(now, horario) <= now + 2 * Day
    ensures horario < Day ==> ReminderTime(now, horario) < now + 2 * Day
  {
  }

  /** Later times of day give later reminders. */
  lemma ReminderTimeMonotonic(now: int, h1: int, h2: int)
    requires h1 <= h2
    ensures ReminderTime(now, h1) <= ReminderTime(now, h2)
  {
  }

  /** A created reminder, whatever `horario` the cast admits, lies in
      `(now, now + 2 days]`. */
  lemma CreatedInWindow(table: Serial<Reminder>, user: UserId, req: CreateRequest, castTime: string -> Option<int>, now: int)
    requires SoundTimeCast(castTime)
    requires Create(table, user, req, castTime, now).0.status == 201
    ensures var r := Create(table, user, req, castTime, now).1.rows[|table.rows|];
      now < r.reminderDatetime <= now + 2 * Day
  {
    var r := Create(table, user, req, castTime, now).1.rows[|table.rows|];
    ReminderTimeBounds(now, r.horario);
  }

  lemma CreateKeepsInvariant(table: Serial<Reminder>, user: UserId, req: CreateRequest, castTime: string -> Option<int>, now: int)
    requires RemindersInvariant(table)
    ensures RemindersInvariant(Create(table, user, req, castTime, now).1)
  {
    var res := Create(table, user, req, castTime, now);
    if res.0.status == 201 {
      var r := res.1.rows[|table.rows|];
      assert res.1.rows == table.rows + [r];
      assert r !in table.rows by {
        forall i | 0 <= i < |table.rows| ensures table.rows[i] != r {
          assert ReminderId(table.rows[i]) < table.next;
        }
      }
      forall q, q' | q in res.1.rows && q' in res.1.rows && q != q' ensures q.id != q'.id {
        if q == r || q' == r {
          var other := if q == r then q' else q;
          assert other in table.rows;
          var i :| 0 <= i < |table.rows| && table.rows[i] == other;
        }
      }
    }
  }

  lemma DeleteKeepsInvariant(table: Serial<Reminder>, user: UserId, id: string, castInt: string -> Option<int>)
    requires RemindersInvariant(table)
    ensures RemindersInvariant(Delete(table, user, id, castInt).1)
  {
    if castInt(id).Some? {
      var p := Untouched(user, castInt(id).value);
      var kept := Delete(table, user, id, castInt).1.rows;
      forall r ensures multiset(kept)[r] <= 1 {
        FilterCount(table.rows, p, r);
      }
      forall i | 0 <= i < |kept| ensures kept[i].id < table.next {
        assert kept[i] in table.rows;
        var j :| 0 <= j < |table.rows| && table.rows[j] == kept[i];
      }
    }
  }

  /** A delete never touches another user's reminders, even one with the
      requested id. */
  lemma DeleteSparesOthers(table: Serial<Reminder>, user: UserId, id: string, castInt: string -> Option<int>, other: UserId)
    requires other != user
    ensures Filter(Delete(table, user, id, castInt).1.rows, OwnedBy(other)) == Filter(table.rows, OwnedBy(other))
  {
    if castInt(id).Some? {
      FilterFilter(table.rows, Untouched(user, castInt(id).value), OwnedBy(other));
    }
  }

  /** Deleting twice is deleting once. */
  lemma DeleteIdempotent(table: Serial<Reminder>, user: UserId, id: string, castInt: string -> Option<int>)
    ensures var once := Delete(table, user, id, castInt).1;
      Delete(once, user, id, castInt).1 == once
  {
    if castInt(id).Some? {
      var p := Untouched(user, castInt(id).value);
      FilterFilter(table.rows, p, p);
    }
  }

  /** Ids are never reissued: a reminder created after another was created
      and deleted has a different id, so repeating the old delete spares the
      new reminder. */
  lemma DeletedIdNotReissued(table: Serial<Reminder>, user: UserId, first: CreateRequest, second: CreateRequest,
                             castTime: string -> Option<int>, castInt: string -> Option<int>, id: string,
                             now: int, later: int)
    requires Create(table, user, first, castTime, now).0.status == 201
    requires castInt(id) == Some(Create(table, user, first, castTime, now).0.body.value.lembrete.id)
    requires Create(Delete(Create(table, user, first, castTime, now).1, user, id, castInt).1, user, second, castTime, later).0.status == 201
    ensures
      var made := Create(Delete(Create(table, user, first, castTime, now).1, user, id, castInt).1, user, second, castTime, later);
      var r := made.0.body.value.lembrete;
      && r.id != Create(table, user, first, castTime, now).0.body.value.lembrete.id
      && r in Delete(made.1, user, id, castInt).1.rows
  {
    var made := Create(Delete(Create(table, user, first, castTime, now).1, user, id, castInt).1, user, second, castTime, later);
    assert made.0.body.value.lembrete in made.1.rows;
  }

  /** Under the table invariant no reminder is listed twice. */
  lemma ListedOnce(table: Serial<Reminder>, user: UserId)
    requires RemindersInvariant(table)
    ensures forall x :: multiset(List(table, user))[x] <= 1
  {
    var rows := List(table, user);
    forall x | x in rows ensures multiset(rows)[x] <= 1 {
      var r :| r in table.rows && r.userId == user && x == RowOf(r);
    }
  }
}
