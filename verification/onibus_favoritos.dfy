/** `GET`, `POST` and `DELETE /onibus-favoritos` over the `favorite_onibus`
    table, whose `(user_id, onibus_id)` pairs are unique. Unlike the favourite
    stops, saving does not check that the bus exists and answers 201 whether
    or not the pair was new, and deleting always answers success. */
module OnibusFavoritos {
  import opened Common
  import opened Text
  import opened Sequences

  const OnibusIdRequired: string := "Informe o onibusId no corpo da requisição."
  const Saved: string := "Ônibus favorito salvo com sucesso."
  const Removed: string := "Ônibus removido dos favoritos."

  /** A row of `onibus`. */
  datatype Onibus = Onibus(id: string, nome: string, codigo: string)

  /** A row of `favorite_onibus`. */
  datatype FavoriteBus = FavoriteBus(userId: UserId, onibusId: string, createdAt: int)

  /** A row of the list: `fo.onibus_id, o.nome, o.codigo, fo.created_at`. */
  datatype FavoriteBusRow = FavoriteBusRow(onibusId: string, nome: string, codigo: string, createdAt: int)

  /** The `(user, bus)` pairs the table holds. */
  function Pairs(favs: seq<FavoriteBus>): set<(UserId, string)>
  {
    set f | f in favs :: (f.userId, f.onibusId)
  }

  /** No row occurs twice and no two rows share a `(user_id, onibus_id)` pair. */
  ghost predicate FavoritesInvariant(favs: seq<FavoriteBus>)
  {
    && (forall f :: multiset(favs)[f] <= 1)
    && (forall f, g :: f in favs && g in favs && f != g ==> (f.userId, f.onibusId) != (g.userId, g.onibusId))
  }

  /** `POST /onibus-favoritos` with body field `onibusId`, at time `now`. */
  function Add(favs: seq<FavoriteBus>, user: UserId, onibusId: JsValue, now: int): (res: (Reply<FavoriteBus>, seq<FavoriteBus>))
    ensures !Truthy(onibusId) ==> res == (Reply(400, Error(OnibusIdRequired)), favs)
    // 201 for a new pair and for one already saved alike.
    ensures Truthy(onibusId) ==> res.0 == Reply(201, Message(Saved))
    // ON CONFLICT DO NOTHING: an existing pair leaves the table as it was.
    ensures Truthy(onibusId) && (user, Param(onibusId)) in Pairs(favs) ==> res.1 == favs
    ensures Truthy(onibusId) && (user, Param(onibusId)) !in Pairs(favs) ==>
      res.1 == favs + [FavoriteBus(user, Param(onibusId), now)]
    ensures Pairs(res.1) == if Truthy(onibusId) then Pairs(favs) + {(user, Param(onibusId))} else Pairs(favs)
  {
    if !Truthy(onibusId) then (Reply(400, Error(OnibusIdRequired)), favs)
    else
      var pair := (user, Param(onibusId));
      var favs' := if pair in Pairs(favs) then favs else favs + [FavoriteBus(user, Param(onibusId), now)];
      assert Pairs(favs') == Pairs(favs) + {pair} by {
        assert forall f :: f in favs + [FavoriteBus(user, Param(onibusId), now)] <==>
          f in favs || f == FavoriteBus(user, Param(onibusId), now);
      }
      (Reply(201, Message(Saved)), favs')
  }

  /** Rows that the delete leaves alone. */
  function Untouched(user: UserId, onibusId: string): FavoriteBus -> bool
  {
    (f: FavoriteBus) => !(f.userId == user && f.onibusId == onibusId)
  }

  /** `DELETE /onibus-favoritos/:onibusId`. */
  function Remove(favs: seq<FavoriteBus>, user: UserId, onibusId: string): (res: (Reply<FavoriteBus>, seq<FavoriteBus>))
    // Success whether or not the pair was saved.
    ensures res.0 == Reply(200, Message(Removed))
    // Exactly the caller's row for that bus goes; every other row stays.
    ensures forall f :: f in res.1 <==> f in favs && !(f.userId == user && f.onibusId == onibusId)
    ensures Pairs(res.1) == Pairs(favs) - {(user, onibusId)}
  {
    var kept := Filter(favs, Untouched(user, onibusId));
    assert Pairs(kept) == Pairs(favs) - {(user, onibusId)} by {
      forall pair | pair in Pairs(favs) - {(user, onibusId)} ensures pair in Pairs(kept) {
        var f :| f in favs && (f.userId, f.onibusId) == pair;
        assert f in kept;
      }
    }
    (Reply(200, Message(Removed)), kept)
  }

  function RowOf(f: FavoriteBus, o: Onibus): FavoriteBusRow
  {
    FavoriteBusRow(f.onibusId, o.nome, o.codigo, f.createdAt)
  }

  /** The list rows one favourite gives: one per bus with its id. */
  function JoinOne(f: FavoriteBus, buses: seq<Onibus>): (rows: seq<FavoriteBusRow>)
    ensures forall r :: r in rows <==> exists o :: o in buses && o.id == f.onibusId && r == RowOf(f, o)
    decreases |buses|
  {
    if |buses| == 0 then []
    else
      var rest := JoinOne(f, buses[1..]);
      assert forall o :: o in buses <==> o == buses[0] || o in buses[1..];
      (if buses[0].id == f.onibusId then [RowOf(f, buses[0])] else []) + rest
  }

  /** The join gives one row for every occurrence of a matching bus. */
  lemma {:induction false} JoinOneCount(f: FavoriteBus, buses: seq<Onibus>)
    ensures forall o :: o in buses && o.id == f.onibusId ==> multiset(JoinOne(f, buses))[RowOf(f, o)] == multiset(buses)[o]
    decreases |buses|
  {
    if |buses| > 0 {
      var rest := buses[1..];
      JoinOneCount(f, rest);
      assert buses == [buses[0]] + rest;
      forall o | o in buses && o.id == f.onibusId
        ensures multiset(JoinOne(f, buses))[RowOf(f, o)] == multiset(buses)[o]
      {
        if o !in rest {
          assert RowOf(f, o) !in JoinOne(f, rest);
        }
      }
    }
  }


  /** `JOIN onibus o ON o.id = fo.onibus_id`. */
  function Join(favs: seq<FavoriteBus>, buses: seq<Onibus>): (rows: seq<FavoriteBusRow>)
    ensures forall r :: r in rows <==> exists f, o :: f in favs && o in buses && o.id == f.onibusId && r == RowOf(f, o)
    decreases |favs|
  {
    if |favs| == 0 then []
    else
      assert forall f :: f in favs <==> f == favs[0] || f in favs[1..];
      JoinOne(favs[0], buses) + Join(favs[1..], buses)
  }

  /** No favourite occurs twice and no two name the same bus. */
  ghost predicate DistinctBuses(favs: seq<FavoriteBus>)
  {
    && (forall f :: multiset(favs)[f] <= 1)
    && (forall f, g :: f in favs && g in favs && f != g ==> f.onibusId != g.onibusId)
  }

  /** Over favourites of distinct buses the join holds one row for every
      favourite and every occurrence of its bus. */
  lemma {:induction false} JoinCount(favs: seq<FavoriteBus>, buses: seq<Onibus>)
    requires DistinctBuses(favs)
    ensures forall f, o :: f in favs && o in buses && o.id == f.onibusId ==>
      multiset(Join(favs, buses))[RowOf(f, o)] == multiset(buses)[o]
    decreases |favs|
  {
    if |favs| > 0 {
      var head, tail := favs[0], favs[1..];
      assert favs == [head] + tail;
      assert forall f :: multiset(tail)[f] <= multiset(favs)[f];
      JoinCount(tail, buses);
      JoinOneCount(head, buses);
      forall f, o | f in favs && o in buses && o.id == f.onibusId
        ensures multiset(Join(favs, buses))[RowOf(f, o)] == multiset(buses)[o]
      {
        if f == head {
          assert multiset(favs) == multiset{head} + multiset(tail);
          assert multiset(favs)[f] <= 1;
          assert multiset(tail)[f] == 0;
          assert RowOf(f, o) !in Join(tail, buses);
        } else {
          assert f in tail;
          assert RowOf(f, o) !in JoinOne(head, buses);
        }
      }
    }
  }

  /** `JoinCount` for the caller's favourites, whose buses the table keeps
      distinct. */
  lemma JoinMineCount(favs: seq<FavoriteBus>, buses: seq<Onibus>, user: UserId)
    ensures FavoritesInvariant(favs) ==>
      forall f, o :: f in favs && f.userId == user && o in buses && o.id == f.onibusId ==>
        multiset(Join(Filter(favs, OwnedBy(user)), buses))[RowOf(f, o)] == multiset(buses)[o]
  {
    if FavoritesInvariant(favs) {
      var mine := Filter(favs, OwnedBy(user));
      forall f ensures multiset(mine)[f] <= 1 {
        FilterCount(favs, OwnedBy(user), f);
      }
      forall f, g | f in mine && g in mine && f != g ensures f.onibusId != g.onibusId {
        assert OwnedBy(user)(f) && OwnedBy(user)(g);
      }
      JoinCount(mine, buses);
      forall f | f in favs && f.userId == user ensures f in mine {
        assert OwnedBy(user)(f);
      }
    }
  }

  function OwnedBy(user: UserId): FavoriteBus -> bool
  {
    (f: FavoriteBus) => f.userId == user
  }

  /** `ORDER BY o.codigo`. */
  predicate ByCodigo(a: FavoriteBusRow, b: FavoriteBusRow)
  {
    LexLeq(a.codigo, b.codigo)
  }

  lemma ByCodigoTotalPreorder()
    ensures TotalPreorder(ByCodigo)
  {
    forall a, b ensures ByCodigo(a, b) || ByCodigo(b, a) {
      LexLeqTotal(a.codigo, b.codigo);
    }
    forall a, b, c | ByCodigo(a, b) && ByCodigo(b, c) ensures ByCodigo(a, c) {
      LexLeqTransitive(a.codigo, b.codigo, c.codigo);
    }
  }

  /** `GET /onibus-favoritos`: the caller's favourite buses, by `codigo`. */
  function List(favs: seq<FavoriteBus>, buses: seq<Onibus>, user: UserId): (rows: seq<FavoriteBusRow>)
    ensures forall r :: r in rows <==>
      exists f, o :: f in favs && f.userId == user && o in buses && o.id == f.onibusId && r == RowOf(f, o)
    ensures SortedBy(rows, ByCodigo)
    // A permutation of the join of the caller's favourites: under the table
    // invariant, one row per favourite and matching bus.
    ensures multiset(rows) == multiset(Join(Filter(favs, OwnedBy(user)), buses))
    ensures FavoritesInvariant(favs) ==>
      forall f, o :: f in favs && f.userId == user && o in buses && o.id == f.onibusId ==>
        multiset(rows)[RowOf(f, o)] == multiset(buses)[o]
  {
    var mine := Filter(favs, OwnedBy(user));
    assert forall f :: f in mine <==> f in favs && f.userId == user by {
      forall f ensures f in mine <==> f in favs && f.userId == user {
        assert OwnedBy(user)(f) == (f.userId == user);
      }
    }
    var joined := Join(mine, buses);
    JoinMineCount(favs, buses, user);
    ByCodigoTotalPreorder();
    SortSorted(joined, ByCodigo);
    var rows := Sort(joined, ByCodigo);
    assert forall r :: r in rows <==> r in joined by {
      forall r ensures r in rows <==> r in joined {
        assert r in rows <==> r in multiset(rows);
        assert r in joined <==> r in multiset(joined);
      }
    }
    rows
  }

  /** Saving is idempotent: the second save of a pair changes nothing. */
  lemma AddIdempotent(favs: seq<FavoriteBus>, user: UserId, onibusId: JsValue, now: int, later: int)
    ensures
      var once := Add(favs, user, onibusId, now).1;
      Add(once, user, onibusId, later) == (Add(favs, user, onibusId, now).0, once)
  {
    var once := Add(favs, user, onibusId, now).1;
    if Truthy(onibusId) {
      assert (user, Param(onibusId)) in Pairs(once);
    }
  }

  /** Saving keeps rows and pairs unique. */
  lemma AddKeepsInvariant(favs: seq<FavoriteBus>, user: UserId, onibusId: JsValue, now: int)
    requires FavoritesInvariant(favs)
    ensures FavoritesInvariant(Add(favs, user, onibusId, now).1)
  {
    var favs' := Add(favs, user, onibusId, now).1;
    if Truthy(onibusId) && (user, Param(onibusId)) !in Pairs(favs) {
      var row := FavoriteBus(user, Param(onibusId), now);
      assert row !in favs;
      forall f, g | f in favs' && g in favs' && f != g
        ensures (f.userId, f.onibusId) != (g.userId, g.onibusId)
      {
        if f == row || g == row {
          var other := if f == row then g else f;
          assert other in favs;
          assert (other.userId, other.onibusId) in Pairs(favs);
        }
      }
    }
  }

  /** Deleting keeps rows and pairs unique. */
  lemma RemoveKeepsInvariant(favs: seq<FavoriteBus>, user: UserId, onibusId: string)
    requires FavoritesInvariant(favs)
    ensures FavoritesInvariant(Remove(favs, user, onibusId).1)
  {
    forall f ensures multiset(Remove(favs, user, onibusId).1)[f] <= 1 {
      FilterCount(favs, Untouched(user, onibusId), f);
    }
  }

  /** Deleting is idempotent and removing a pair that is not saved changes
      nothing. */
  lemma RemoveIdempotent(favs: seq<FavoriteBus>, user: UserId, onibusId: string)
    ensures
      var once := Remove(favs, user, onibusId).1;
      Remove(once, user, onibusId).1 == once
  {
    var p := Untouched(user, onibusId);
    FilterFilter(favs, p, p);
  }

  /** With the table invariant and no bus stored twice (its primary key), no
      row is listed twice. */
  lemma ListedOnce(favs: seq<FavoriteBus>, buses: seq<Onibus>, user: UserId)
    requires FavoritesInvariant(favs)
    requires forall o :: multiset(buses)[o] <= 1
    ensures forall r :: multiset(List(favs, buses, user))[r] <= 1
  {
    var rows := List(favs, buses, user);
    forall r | r in rows ensures multiset(rows)[r] <= 1 {
      var f, o :| f in favs && f.userId == user && o in buses && o.id == f.onibusId && r == RowOf(f, o);
    }
  }
}
