/** `GET /pontos/proximos?lat=...&lng=...&raio=...`: the stops within `raio`
    metres of the caller, nearest first. `parseFloat` and the Haversine
    distance `calcularDistanciaEmMetros` are passed in; the defaulting, the NaN
    check, `Math.round`, the inclusive radius filter and the stable sort are
    modelled exactly. */
module Pontos {
  import opened Common
  import opened Sequences

  /** `raio ? parseFloat(raio) : 1000`. */
  const DefaultRadius: real := 1000.0

  const InvalidParams: string := "Parâmetros lat, lng e raio devem ser números válidos."

  /** A row of `stops`: `id, name, latitude, longitude, description`. */
  datatype Stop = Stop(id: string, name: string, latitude: real, longitude: real, description: string)

  /** `{ ...ponto, distancia_metros }`: the stop row unchanged, plus its distance. */
  datatype NearStop = NearStop(stop: Stop, distanciaMetros: int)

  /** The query string; `None` is a parameter that is not there. */
  datatype Query = Query(lat: Option<string>, lng: Option<string>, raio: Option<string>)

  /** `Math.round`: the nearest integer, halves rounded up. */
  function MathRound(x: real): (n: int)
    ensures n as real - 0.5 <= x < n as real + 0.5
  {
    (x + 0.5).Floor
  }

  /** `parseFloat(p)` with `None` standing for NaN; `parseFloat(undefined)` is NaN. */
  function ParseParam(p: Option<string>, parseFloat: string -> Option<real>): (v: Option<real>)
    ensures p.None? ==> v.None?
    ensures p.Some? ==> v == parseFloat(p.value)
  {
    match p
    case None => None
    case Some(s) => parseFloat(s)
  }

  /** `raio ? parseFloat(raio) : 1000`: an absent or empty `raio` is the
      default, whatever `parseFloat` would make of it. */
  function Radius(raio: Option<string>, parseFloat: string -> Option<real>): (v: Option<real>)
    ensures raio.None? || raio.value == "" ==> v == Some(DefaultRadius)
    ensures raio.Some? && raio.value != "" ==> v == parseFloat(raio.value)
  {
    if raio.None? || raio.value == "" then Some(DefaultRadius) else parseFloat(raio.value)
  }

  /** The rounded distance from the caller to a stop. */
  function Metres(lat: real, lng: real, stop: Stop, distance: (real, real, real, real) -> real): int
  {
    MathRound(distance(lat, lng, stop.latitude, stop.longitude))
  }

  /** `resultado.rows.map(...)`. */
  function Annotate(stops: seq<Stop>, lat: real, lng: real, distance: (real, real, real, real) -> real): (r: seq<NearStop>)
    ensures |r| == |stops|
    ensures forall i :: 0 <= i < |stops| ==> r[i] == NearStop(stops[i], Metres(lat, lng, stops[i], distance))
    decreases |stops|
  {
    if |stops| == 0 then []
    else [NearStop(stops[0], Metres(lat, lng, stops[0], distance))] + Annotate(stops[1..], lat, lng, distance)
  }

  /** `p.distancia_metros <= raioMetros`. */
  function WithinRadius(raio: real): NearStop -> bool
  {
    (p: NearStop) => p.distanciaMetros as real <= raio
  }

  /** `(a, b) => a.distancia_metros - b.distancia_metros`, as an ordering. */
  predicate ByDistance(a: NearStop, b: NearStop)
  {
    a.distanciaMetros <= b.distanciaMetros
  }

  lemma ByDistanceTotalPreorder()
    ensures TotalPreorder(ByDistance)
  {
  }

  /** Round and filter: `pontos.filter((p) => p.distancia_metros <= raioMetros)`. */
  function Within(stops: seq<Stop>, lat: real, lng: real, raio: real, distance: (real, real, real, real) -> real): (w: seq<NearStop>)
    // Exactly the stops within the radius (boundary included), each with its rounded distance...
    ensures forall p :: p in w <==>
      p.stop in stops && p.distanciaMetros == Metres(lat, lng, p.stop, distance) && p.distanciaMetros as real <= raio
    // ...each as often as in the table.
    ensures forall s :: s in stops && Metres(lat, lng, s, distance) as real <= raio ==>
      multiset(w)[NearStop(s, Metres(lat, lng, s, distance))] == multiset(stops)[s]
  {
    var annotated := Annotate(stops, lat, lng, distance);
    var w := Filter(annotated, WithinRadius(raio));
    forall s | s in stops && Metres(lat, lng, s, distance) as real <= raio
      ensures multiset(w)[NearStop(s, Metres(lat, lng, s, distance))] == multiset(stops)[s]
    {
      var x := NearStop(s, Metres(lat, lng, s, distance));
      AnnotateCount(stops, lat, lng, distance, s);
      FilterCount(annotated, WithinRadius(raio), x);
      assert WithinRadius(raio)(x);
    }
    forall p | p in annotated ensures p.stop in stops && p.distanciaMetros == Metres(lat, lng, p.stop, distance) {
      var i :| 0 <= i < |annotated| && annotated[i] == p;
    }
    forall s | s in stops ensures NearStop(s, Metres(lat, lng, s, distance)) in annotated {
      var i :| 0 <= i < |stops| && stops[i] == s;
      assert annotated[i] == NearStop(s, Metres(lat, lng, s, distance));
    }
    w
  }

  /** Round, filter, then sort nearest first. */
  function Nearby(stops: seq<Stop>, lat: real, lng: real, raio: real, distance: (real, real, real, real) -> real): (r: seq<NearStop>)
    // The stops within the radius, as often as in the table, in some order...
    ensures multiset(r) == multiset(Within(stops, lat, lng, raio, distance))
    // ...nearest first, with ties in table order.
    ensures SortedBy(r, ByDistance)
    ensures forall k :: Ties(r, k, ByDistance) == Ties(Within(stops, lat, lng, raio, distance), k, ByDistance)
  {
    var within := Within(stops, lat, lng, raio, distance);
    ByDistanceTotalPreorder();
    SortSorted(within, ByDistance);
    forall k ensures Ties(Sort(within, ByDistance), k, ByDistance) == Ties(within, k, ByDistance) {
      SortStable(within, k, ByDistance);
    }
    Sort(within, ByDistance)
  }

  /** Membership in the result, both ways: a result is a stop within the
      radius with its rounded distance, and every such stop is a result. */
  lemma NearbyMembers(stops: seq<Stop>, lat: real, lng: real, raio: real, distance: (real, real, real, real) -> real)
    ensures forall p :: p in Nearby(stops, lat, lng, raio, distance) <==>
      p.stop in stops && p.distanciaMetros == Metres(lat, lng, p.stop, distance) && p.distanciaMetros as real <= raio
  {
    var r := Nearby(stops, lat, lng, raio, distance);
    var w := Within(stops, lat, lng, raio, distance);
    forall p ensures p in r <==> p in w {
      assert p in r <==> p in multiset(r);
      assert p in w <==> p in multiset(w);
    }
  }

  /** Annotating does not merge or split stops. */
  lemma {:induction false} AnnotateCount(stops: seq<Stop>, lat: real, lng: real, distance: (real, real, real, real) -> real, s: Stop)
    ensures multiset(Annotate(stops, lat, lng, distance))[NearStop(s, Metres(lat, lng, s, distance))] == multiset(stops)[s]
    decreases |stops|
  {
    if |stops| > 0 {
      AnnotateCount(stops[1..], lat, lng, distance, s);
      assert stops == [stops[0]] + stops[1..];
    }
  }

  /** The handler's reply. */
  function Proximos(q: Query, stops: seq<Stop>, parseFloat: string -> Option<real>,
                    distance: (real, real, real, real) -> real): (r: Reply<seq<NearStop>>)
    // A NaN coordinate or radius: 400, no results.
    ensures ParseParam(q.lat, parseFloat).None? || ParseParam(q.lng, parseFloat).None? || Radius(q.raio, parseFloat).None? ==>
      r == Reply(400, Error(InvalidParams))
    ensures r.status == 200 <==>
      ParseParam(q.lat, parseFloat).Some? && ParseParam(q.lng, parseFloat).Some? && Radius(q.raio, parseFloat).Some?
    ensures r.status == 200 ==>
      r.body == Json(Nearby(stops, ParseParam(q.lat, parseFloat).value, ParseParam(q.lng, parseFloat).value,
                            Radius(q.raio, parseFloat).value, distance))
  {
    match (ParseParam(q.lat, parseFloat), ParseParam(q.lng, parseFloat), Radius(q.raio, parseFloat))
    case (Some(lat), Some(lng), Some(raio)) => Reply(200, Json(Nearby(stops, lat, lng, raio, distance)))
    case _ => Reply(400, Error(InvalidParams))
  }

  /** Without `raio` (or with it empty) the search radius is 1000 m. */
  lemma DefaultRadiusUsed(q: Query, stops: seq<Stop>, parseFloat: string -> Option<real>,
                          distance: (real, real, real, real) -> real, lat: real, lng: real)
    requires q.raio == None || q.raio == Some("")
    requires ParseParam(q.lat, parseFloat) == Some(lat) && ParseParam(q.lng, parseFloat) == Some(lng)
    ensures Proximos(q, stops, parseFloat, distance) == Reply(200, Json(Nearby(stops, lat, lng, 1000.0, distance)))
  {
  }

  /** Distances are never negative, so a negative radius finds nothing. */
  lemma NegativeRadiusFindsNothing(stops: seq<Stop>, lat: real, lng: real, raio: real,
                                   distance: (real, real, real, real) -> real)
    requires raio < 0.0
    requires forall a, b, c, d :: distance(a, b, c, d) >= 0.0
    ensures Nearby(stops, lat, lng, raio, distance) == []
  {
    var r := Nearby(stops, lat, lng, raio, distance);
    forall s: Stop ensures Metres(lat, lng, s, distance) >= 0 {
      assert distance(lat, lng, s.latitude, s.longitude) >= 0.0;
    }
    NearbyMembers(stops, lat, lng, raio, distance);
    if |r| > 0 {
      assert false;
    }
  }

  /** Three stops at 500 m, 200 m and 800 m, in that table order, come back as
      200, 500, 800. */
  lemma OrderingExample(a: Stop, b: Stop, c: Stop, lat: real, lng: real, distance: (real, real, real, real) -> real)
    requires distance(lat, lng, a.latitude, a.longitude) == 500.0
    requires distance(lat, lng, b.latitude, b.longitude) == 200.0
    requires distance(lat, lng, c.latitude, c.longitude) == 800.0
    ensures Nearby([a, b, c], lat, lng, DefaultRadius, distance) == [NearStop(b, 200), NearStop(a, 500), NearStop(c, 800)]
  {
    var pa, pb, pc := NearStop(a, 500), NearStop(b, 200), NearStop(c, 800);
    assert Annotate([a, b, c], lat, lng, distance) == [pa, pb, pc];
    KeepAllThree(pa, pb, pc);
    SortThree(pa, pb, pc);
  }

  lemma KeepAllThree(pa: NearStop, pb: NearStop, pc: NearStop)
    requires pa.distanciaMetros == 500 && pb.distanciaMetros == 200 && pc.distanciaMetros == 800
    ensures Filter([pa, pb, pc], WithinRadius(DefaultRadius)) == [pa, pb, pc]
  {
    var keep := WithinRadius(DefaultRadius);
    assert keep(pa) && keep(pb) && keep(pc);
    assert [pa, pb, pc][..2] == [pa, pb] && [pa, pb][..1] == [pa] && [pa][..0] == [];
    assert Filter([pa], keep) == [pa];
    assert Filter([pa, pb], keep) == [pa, pb];
  }

  lemma SortThree(pa: NearStop, pb: NearStop, pc: NearStop)
    requires pa.distanciaMetros == 500 && pb.distanciaMetros == 200 && pc.distanciaMetros == 800
    ensures Sort([pa, pb, pc], ByDistance) == [pb, pa, pc]
  {
    SortTwo(pa, pb);
    assert [pa, pb, pc][..2] == [pa, pb];
    assert Insert([pb, pa], pc, ByDistance) == [pb, pa] + [pc];
  }

  lemma SortTwo(pa: NearStop, pb: NearStop)
    requires pa.distanciaMetros == 500 && pb.distanciaMetros == 200
    ensures Sort([pa, pb], ByDistance) == [pb, pa]
  {
    assert [pa, pb][..1] == [pa] && [pa][..0] == [];
    assert Sort([pa], ByDistance) == [pa];
    assert Insert([], pb, ByDistance) == [pb];
    assert Insert([pa], pb, ByDistance) == [pb, pa];
  }

  /** Rounding comes before the inclusive filter: with a 1000 m radius a stop
      at 1000.4 m (rounded to 1000) is found and one at 1000.5 m (rounded to
      1001) is not. */
  lemma BoundaryExample(a: Stop, b: Stop, lat: real, lng: real, distance: (real, real, real, real) -> real)
    requires distance(lat, lng, a.latitude, a.longitude) == 1000.4
    requires distance(lat, lng, b.latitude, b.longitude) == 1000.5
    ensures Nearby([a, b], lat, lng, DefaultRadius, distance) == [NearStop(a, 1000)]
  {
    var pa, pb := NearStop(a, 1000), NearStop(b, 1001);
    assert Annotate([a, b], lat, lng, distance) == [pa, pb];
    var keep := WithinRadius(DefaultRadius);
    assert keep(pa) && !keep(pb);
    assert [pa, pb][..1] == [pa] && [pa][..0] == [];
    assert Filter([pa], keep) == [pa];
    assert Filter([pa, pb], keep) == [pa];
    assert Sort([pa], ByDistance) == [pa];
  }
}
