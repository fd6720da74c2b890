/** `GET`, `POST` and `DELETE /pontos-favoritos` over the `favorite_stops`
    table, whose `(user_id, stop_id)` pairs are unique, and the `stops` table
    it references. Every handler runs after the authentication middleware and
    receives the caller's `usuarioId`. */
module PontosFavoritos {
  import opened Common
  import opened Sequences
  import opened Pontos

  const StopIdRequired: string := "stopId é obrigatório."
  const StopNotFound: string := "Ponto de ônibus não encontrado."
  const AlreadySaved: string := "Ponto já estava salvo como favorito."
  const FavoriteNotFound: string := "Ponto favorito não encontrado para este usuário."

  /** A row of `favorite_stops`; also the body of a 201 reply
      (`RETURNING id, user_id, stop_id, created_at`). */
  datatype FavoriteStop = FavoriteStop(id: nat, userId: UserId, stopId: string, createdAt: int)

  /** A row of the list: the favourite joined with its stop. */
  datatype FavoriteStopRow = FavoriteStopRow(id: nat, stopId: string, name: string, latitude: real, longitude: real,
                                             description: string, createdAt: int)

  /** Every id was drawn from the sequence, no row occurs twice, and no two
      rows share an id or a `(user_id, stop_id)` pair. */
  ghost predicate FavoritesInvariant(favs: Serial<FavoriteStop>)
  {
    && IdsDrawn(favs, FavoriteId)
    && (forall f :: multiset(favs.rows)[f] <= 1)
    && (forall f, g :: f in favs.rows && g in favs.rows && f != g ==>
          f.id != g.id && (f.userId, f.stopId) != (g.userId, g.stopId))
  }

  /** The `(user, stop)` pairs the table holds. */
  function Pairs(favs: seq<FavoriteStop>): set<(UserId, string)>
  {
    set f | f in favs :: (f.userId, f.stopId)
  }

  function FavoriteId(f: FavoriteStop): nat
  {
    f.id
  }

  predicate StopExists(stops: seq<Stop>, id: string)
  {
    exists s :: s in stops && s.id == id
  }

  /** `POST /pontos-favoritos` with body field `stopId`, at time `now`. */
  function Add(favs: Serial<FavoriteStop>, stops: seq<Stop>, user: UserId, stopId: JsValue, now: int)
    : (res: (Reply<FavoriteStop>, Serial<FavoriteStop>))
    ensures !Truthy(stopId) ==> res == (Reply(400, Error(StopIdRequired)), favs)
    ensures Truthy(stopId) && !StopExists(stops, Param(stopId)) ==> res == (Reply(404, Error(StopNotFound)), favs)
    // ON CONFLICT DO NOTHING: saving a saved stop again adds no row, though
    // the attempted insert still draws an id from the sequence.
    ensures Truthy(stopId) && StopExists(stops, Param(stopId)) && (user, Param(stopId)) in Pairs(favs.rows) ==>
      res == (Reply(200, Message(AlreadySaved)), Serial(favs.rows, favs.next + 1))
    ensures res.0.status != 201 ==> res.1.rows == favs.rows
    ensures res.0.status == 201 <==>
      Truthy(stopId) && StopExists(stops, Param(stopId)) && (user, Param(stopId)) !in Pairs(favs.rows)
    // 201: one new row for the pair, under the sequence's next id, returned as the body.
    ensures res.0.status == 201 ==>
      && |res.1.rows| == |favs.rows| + 1 && res.1.rows[..|favs.rows|] == favs.rows
      && res.1.next == favs.next + 1
      && var row := res.1.rows[|favs.rows|];
      && row.id == favs.next
      && row.userId == user && row.stopId == Param(stopId) && row.createdAt == now
      && res.0.body == Json(row)
    ensures Pairs(res.1.rows) ==
      if res.0.status == 201 then Pairs(favs.rows) + {(user, Param(stopId))} else Pairs(favs.rows)
  {
    if !Truthy(stopId) then (Reply(400, Error(StopIdRequired)), favs)
    else if !StopExists(stops, Param(stopId)) then (Reply(404, Error(StopNotFound)), favs)
    else if (user, Param(stopId)) in Pairs(favs.rows) then
      (Reply(200, Message(AlreadySaved)), Serial(favs.rows, favs.next + 1))
    else
      var row := FavoriteStop(favs.next, user, Param(stopId), now);
      assert Pairs(favs.rows + [row]) == Pairs(favs.rows) + {(user, Param(stopId))} by {
        assert forall f :: f in favs.rows + [row] <==> f in favs.rows || f == row;
      }
      (Reply(201, Json(row)), Append(favs, row, FavoriteId))
  }

  /** Rows that the delete leaves alone. */
  function Untouched(user: UserId, stopId: string): FavoriteStop -> bool
  {
    (f: FavoriteStop) => !(f.userId == user && f.stopId == stopId)
  }

  /** `DELETE /pontos-favoritos/:stopId`: `rowCount === 0` is a 404. A
      delete leaves the sequence alone. */
  function Remove(favs: Serial<FavoriteStop>, user: UserId, stopId: string)
    : (res: (Reply<FavoriteStop>, Serial<FavoriteStop>))
    ensures res.0.status == 404 <==> (user, stopId) !in Pairs(favs.rows)
    ensures res.0.status == 404 ==> res == (Reply(404, Error(FavoriteNotFound)), favs)
    ensures res.0.status != 404 ==> res.0 == Reply(204, Empty)
    ensures res.1.next == favs.next
    // Exactly the caller's row for that stop goes; every other row stays.
    ensures forall f :: f in res.1.rows <==> f in favs.rows && !(f.userId == user && f.stopId == stopId)
    ensures Pairs(res.1.rows) == Pairs(favs.rows) - {(user, stopId)}
  {
    var rows := favs.rows;
    var kept := Filter(rows, Untouched(user, stopId));
    assert Pairs(kept) == Pairs(rows) - {(user, stopId)} by {
      forall pair | pair in Pairs(rows) - {(user, stopId)} ensures pair in Pairs(kept) {
        var f :| f in rows && (f.userId, f.stopId) == pair;
        assert f in kept;
      }
    }
    FilterDropsNothing(rows, Untouched(user, stopId));
    assert (user, stopId) in Pairs(rows) <==> exists i :: 0 <= i < |rows| && !Untouched(user, stopId)(rows[i]) by {
      if (user, stopId) in Pairs(rows) {
        var f :| f in rows && (f.userId, f.stopId) == (user, stopId);
        var i :| 0 <= i < |rows| && rows[i] == f;
        assert !Untouched(user, stopId)(rows[i]);
      }
    }
    if |rows| - |kept| == 0 then (Reply(404, Error(FavoriteNotFound)), favs)
    else (Reply(204, Empty), Serial(kept, favs.next))
  }

  /** The list rows one favourite gives: one per stop with its id (the join). */
  function JoinOne(f: FavoriteStop, stops: seq<Stop>): (rows: seq<FavoriteStopRow>)
    ensures forall r :: r in rows <==> exists s :: s in stops && s.id == f.stopId && r == RowOf(f, s)
    decreases |stops|
  {
    if |stops| == 0 then []
    else
      var rest := JoinOne(f, stops[1..]);
      assert forall s :: s in stops <==> s == stops[0] || s in stops[1..];
      (if stops[0].id == f.stopId then [RowOf(f, stops[0])] else []) + rest
  }

  /** The join gives one row for every occurrence of a matching stop. */
  lemma {:induction false} JoinOneCount(f: FavoriteStop, stops: seq<Stop>)
    ensures forall s :: s in stops && s.id == f.stopId ==> multiset(JoinOne(f, stops))[RowOf(f, s)] == multiset(stops)[s]
    decreases |stops|
  {
    if |stops| > 0 {
      var rest := stops[1..];
      JoinOneCount(f, rest);
      assert stops == [stops[0]] + rest;
      forall s | s in stops && s.id == f.stopId
        ensures multiset(JoinOne(f, stops))[RowOf(f, s)] == multiset(stops)[s]
      {
        if s !in rest {
          assert RowOf(f, s) !in JoinOne(f, rest);
        }
      }
    }
  }


  function RowOf(f: FavoriteStop, s: Stop): FavoriteStopRow
  {
    FavoriteStopRow(f.id, s.id, s.name, s.latitude, s.longitude, s.description, f.createdAt)
  }

  /** `JOIN stops s ON s.id = fs.stop_id`. */
  function Join(favs: seq<FavoriteStop>, stops: seq<Stop>): (rows: seq<FavoriteStopRow>)
    ensures forall r :: r in rows <==> exists f, s :: f in favs && s in stops && s.id == f.stopId && r == RowOf(f, s)
    decreases |favs|
  {
    if |favs| == 0 then []
    else
      assert forall f :: f in favs <==> f == favs[0] || f in favs[1..];
      JoinOne(favs[0], stops) + Join(favs[1..], stops)
  }

  /** No favourite occurs twice and no two share an id. */
  ghost predicate DistinctIds(favs: seq<FavoriteStop>)
  {
    && (forall f :: multiset(favs)[f] <= 1)
    && (forall f, g :: f in favs && g in favs && f != g ==> f.id != g.id)
  }

  /** Over distinct favourites the join holds one row for every favourite and
      every occurrence of its stop: the rows of two favourites never mix. */
  lemma {:induction false} JoinCount(favs: seq<FavoriteStop>, stops: seq<Stop>)
    requires DistinctIds(favs)
    ensures forall f, s :: f in favs && s in stops && s.id == f.stopId ==>
      multiset(Join(favs, stops))[RowOf(f, s)] == multiset(stops)[s]
    decreases |favs|
  {
    if |favs| > 0 {
      var head, tail := favs[0], favs[1..];
      assert favs == [head] + tail;
      assert forall f :: multiset(tail)[f] <= multiset(favs)[f];
      JoinCount(tail, stops);
      JoinOneCount(head, stops);
      forall f, s | f in favs && s in stops && s.id == f.stopId
        ensures multiset(Join(favs, stops))[RowOf(f, s)] == multiset(stops)[s]
      {
        if f == head {
          assert multiset(favs) == multiset{head} + multiset(tail);
          assert multiset(favs)[f] <= 1;
          assert multiset(tail)[f] == 0;
          assert RowOf(f, s) !in Join(tail, stops);
        } else {
          assert f in tail;
          assert RowOf(f, s) !in JoinOne(head, stops);
        }
      }
    }
  }

  /** `JoinCount` for the caller's favourites. */
  lemma JoinMineCount(favs: seq<FavoriteStop>, stops: seq<Stop>, user: UserId)
    ensures DistinctIds(favs) ==>
      forall f, s :: f in favs && f.userId == user && s in stops && s.id == f.stopId ==>
        multiset(Join(Filter(favs, OwnedBy(user)), stops))[RowOf(f, s)] == multiset(stops)[s]
  {
    if DistinctIds(favs) {
      var mine := Filter(favs, OwnedBy(user));
      forall f ensures multiset(mine)[f] <= 1 {
        FilterCount(favs, OwnedBy(user), f);
      }
      JoinCount(mine, stops);
      forall f | f in favs && f.userId == user ensures f in mine {
        assert OwnedBy(user)(f);
      }
    }
  }

  function OwnedBy(user: UserId): FavoriteStop -> bool
  {
    (f: FavoriteStop) => f.userId == user
  }

  /** `ORDER BY fs.created_at DESC`. */
  predicate NewestFirst(a: FavoriteStopRow, b: FavoriteStopRow)
  {
    a.createdAt >= b.createdAt
  }

  /** `GET /pontos-favoritos`: the caller's favourites with their stops, newest first. */
  function List(favs: seq<FavoriteStop>, stops: seq<Stop>, user: UserId): (rows: seq<FavoriteStopRow>)
    ensures forall r :: r in rows <==>
      exists f, s :: f in favs && f.userId == user && s in stops && s.id == f.stopId && r == RowOf(f, s)
    ensures SortedBy(rows, NewestFirst)
    // A permutation of the join of the caller's favourites: over distinct
    // favourites, one row per favourite and matching stop.
    ensures multiset(rows) == multiset(Join(Filter(favs, OwnedBy(user)), stops))
    ensures DistinctIds(favs) ==>
      forall f, s :: f in favs && f.userId == user && s in stops && s.id == f.stopId ==>
        multiset(rows)[RowOf(f, s)] == multiset(stops)[s]
  {
    var mine := Filter(favs, OwnedBy(user));
    assert forall f :: f in mine <==> f in favs && f.userId == user by {
      forall f ensures f in mine <==> f in favs && f.userId == user {
        assert OwnedBy(user)(f) == (f.userId == user);
      }
    }
    var joined := Join(mine, stops);
    JoinMineCount(favs, stops, user);
    assert TotalPreorder(NewestFirst);
    SortSorted(joined, NewestFirst);
    var rows := Sort(joined, NewestFirst);
    assert forall r :: r in rows <==> r in joined by {
      forall r ensures r in rows <==> r in joined {
        assert r in rows <==> r in multiset(rows);
        assert r in joined <==> r in multiset(joined);
      }
    }
    rows
  }

  /** Every handler keeps ids drawn and rows, ids and pairs unique. */
  lemma AddKeepsInvariant(favs: Serial<FavoriteStop>, stops: seq<Stop>, user: UserId, stopId: JsValue, now: int)
    requires FavoritesInvariant(favs)
    ensures FavoritesInvariant(Add(favs, stops, user, stopId, now).1)
  {
    var res := Add(favs, stops, user, stopId, now);
    if res.0.status == 201 {
      var row := res.1.rows[|favs.rows|];
      assert res.1.rows == favs.rows + [row];
      assert row !in favs.rows by {
        forall i | 0 <= i < |favs.rows| ensures favs.rows[i] != row {
          assert FavoriteId(favs.rows[i]) < favs.next;
        }
      }
      forall f, g | f in res.1.rows && g in res.1.rows && f != g
        ensures f.id != g.id && (f.userId, f.stopId) != (g.userId, g.stopId)
      {
        if f == row || g == row {
          var other := if f == row then g else f;
          assert other in favs.rows;
          assert (other.userId, other.stopId) in Pairs(favs.rows);
          var i :| 0 <= i < |favs.rows| && favs.rows[i] == other;
        }
      }
    }
  }

  lemma RemoveKeepsInvariant(favs: Serial<FavoriteStop>, user: UserId, stopId: string)
    requires FavoritesInvariant(favs)
    ensures FavoritesInvariant(Remove(favs, user, stopId).1)
  {
    var res := Remove(favs, user, stopId);
    forall f ensures multiset(Filter(favs.rows, Untouched(user, stopId)))[f] <= 1 {
      FilterCount(favs.rows, Untouched(user, stopId), f);
    }
    forall i | 0 <= i < |res.1.rows| ensures res.1.rows[i].id < res.1.next {
      assert res.1.rows[i] in favs.rows;
      var j :| 0 <= j < |favs.rows| && favs.rows[j] == res.1.rows[i];
    }
  }

  /** Saving the same stop twice adds the row once. */
  lemma AddIdempotent(favs: Serial<FavoriteStop>, stops: seq<Stop>, user: UserId, stopId: JsValue, now: int, later: int)
    ensures
      var once := Add(favs, stops, user, stopId, now).1;
      Add(once, stops, user, stopId, later).1.rows == once.rows
  {
  }

  /** A delete touches only the caller's rows: another user's favourites are
      exactly what they were. */
  lemma RemoveSparesOthers(favs: Serial<FavoriteStop>, user: UserId, stopId: string, other: UserId)
    requires other != user
    ensures Filter(Remove(favs, user, stopId).1.rows, OwnedBy(other)) == Filter(favs.rows, OwnedBy(other))
  {
    var res := Remove(favs, user, stopId);
    if res.0.status != 404 {
      FilterFilter(favs.rows, Untouched(user, stopId), OwnedBy(other));
    }
  }

  /** Ids are never handed out twice: a favourite saved after another was
      saved and deleted gets a different id, whatever happened in between to
      the table. */
  lemma ReAddGetsNewId(favs: Serial<FavoriteStop>, stops: seq<Stop>, user: UserId, stopId: JsValue, other: JsValue,
                       now: int, later: int)
    requires Add(favs, stops, user, stopId, now).0.status == 201
    requires Add(Remove(Add(favs, stops, user, stopId, now).1, user, Param(stopId)).1, stops, user, other, later).0.status == 201
    ensures
      var first := Add(favs, stops, user, stopId, now);
      var second := Add(Remove(first.1, user, Param(stopId)).1, stops, user, other, later);
      second.0.body.value.id != first.0.body.value.id
  {
  }

  /** With the table invariant and no stop stored twice (its primary key),
      no row is listed twice. */
  lemma ListedOnce(favs: Serial<FavoriteStop>, stops: seq<Stop>, user: UserId)
    requires FavoritesInvariant(favs)
    requires forall s :: multiset(stops)[s] <= 1
    ensures forall r :: multiset(List(favs.rows, stops, user))[r] <= 1
  {
    var rows := List(favs.rows, stops, user);
    forall r | r in rows ensures multiset(rows)[r] <= 1 {
      var f, s :| f in favs.rows && f.userId == user && s in stops && s.id == f.stopId && r == RowOf(f, s);
    }
  }
}
