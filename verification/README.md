# bustrack-api in Dafny

A model of the decision logic of bustrack-api, a small Express/PostgreSQL API
for bus users. The API has:

- an authentication middleware (`autenticarUsuario`) that reads a Bearer token;
- register and login routes, with bcrypt password hashes and 7-day JWTs;
- a nearby-stops search;
- favourite stops and favourite buses;
- next-day reminders.

Each route handler is a pure function. It takes the tables it reads or writes,
plus the request, and returns a `Reply` (a status code and a
JSON body) together with the tables afterwards. The pieces the API only calls
into are passed in as functions:

- bcrypt's `hash` and `compare`;
- JWT signing and signature checking;
- the Haversine distance;
- JavaScript's `parseFloat`;
- PostgreSQL's `::time` and integer casts;
- the clock.

Where a property depends on one of these, the guarantee is stated as a ghost
predicate (`SoundCodec`, `SoundHasher`, `SoundTimeCast`) and taken as a
hypothesis.

The modules follow the source files:

- `Common`: JSON body values with JavaScript truthiness, the text the `pg` driver
  sends for a parameter, replies, and tables with an id sequence.
- `Text`: JavaScript `split`/`join` on one character, and C-collation string
  order.
- `Sequences`: `Array.prototype.filter`, and a stable insertion sort standing
  for both `Array.prototype.sort` and `ORDER BY`.
- `Jwt`: the claims, the 7-day lifetime and the expiry check of `jsonwebtoken`.
- `Autenticacao`: the middleware.
- `AuthRoutes`: `/auth/register` and `/auth/login`.
- `Pontos`: `/pontos/proximos`.
- `PontosFavoritos`: `/pontos-favoritos`.
- `OnibusFavoritos`: `/onibus-favoritos`.
- `Lembretes`: `/lembretes`.

A table with a `SERIAL` id is a `Serial`: its rows plus the next value of its
id sequence. Every insert draws the next value, including an insert that
`ON CONFLICT DO NOTHING` turns into no row, and a delete never gives a value
back, so ids are never reissued.

Time is whole seconds in UTC, so `date_trunc('day', t)` is `t - t % 86400`.

## Model

| member | source | states |
|---|---|---|
| Common.Append | src/routes/auth.routes.js:30-35 | An insert appends its row under the sequence's current value and advances the sequence by one. While every stored id was drawn earlier, the new id differs from all of them and that stays true afterwards. |
| Common.NatText | src/routes/auth.routes.js:30-34 | The decimal text the driver sends for a whole number is non-empty, all digits, free of leading zeros, and reads back as that number. |
| Common.Param | src/routes/auth.routes.js:30-34 | The driver's text for a truthy body value is never empty, and a string is sent as itself. |
| Text.Split | src/middlewares/autenticacao.js:10 | `split(' ')` gives at least one field. No field contains a space, and joining the fields with spaces gives back the header. |
| Text.SplitJoin | src/middlewares/autenticacao.js:10 | Splitting a join of space-free fields gives back exactly those fields, so `split` and `join` are inverse. |
| Text.SplitSingleField | src/middlewares/autenticacao.js:10-14 | A header splits into a single field (no token at index 1) exactly when it contains no space. |
| Text.SplitAfterWord | src/middlewares/autenticacao.js:10 | A space-free word followed by a space is the first field, and the rest splits independently. |
| Text.FirstFieldIsWord | src/middlewares/autenticacao.js:10 | A space-free prefix followed by nothing or by a space is the entire first field. |
| Text.LexLeqTotal | src/routes/onibusFavoritos.routes.js:26 | Any two bus codes are ordered one way or the other by `ORDER BY o.codigo`. |
| Text.LexLeqTransitive | src/routes/onibusFavoritos.routes.js:26 | The code order is transitive. |
| Text.LexLeqAntisymmetric | src/routes/onibusFavoritos.routes.js:26 | Only equal codes are ordered both ways. |
| Sequences.Filter | src/routes/pontos.routes.js:77 | `filter` keeps exactly the elements that satisfy the predicate, and never lengthens the list. |
| Sequences.FilterCount | src/routes/pontos.routes.js:77 | `filter` keeps every element that passes as many times as it occurs, and drops every element that fails. |
| Sequences.FilterDropsNothing | src/routes/pontosFavoritos.routes.js:97-103 | A filter removes nothing exactly when every element passes, so `rowCount === 0` means no row matched. |
| Sequences.FilterFilter | src/routes/pontosFavoritos.routes.js:97-101 | Filtering by a weaker predicate and then a stronger one is the same as filtering by the stronger one alone. |
| Sequences.Insert | src/routes/pontos.routes.js:78 | Insertion adds exactly the one element to the multiset. |
| Sequences.Sort | src/routes/pontos.routes.js:78 | The sorted list is a permutation of its input. |
| Sequences.InsertSorted | src/routes/pontos.routes.js:78 | Inserting into a sorted list keeps it sorted under a total preorder. |
| Sequences.SortSorted | src/routes/pontos.routes.js:78 | The sort's output is ordered by any total-preorder comparator. |
| Sequences.TiesSnoc | src/routes/pontos.routes.js:78 | Appending an element extends its own tie class and leaves other tie classes alone. |
| Sequences.InsertTies | src/routes/pontos.routes.js:78 | Inserting an element puts it after the elements it ties with, in order. |
| Sequences.InsertTiesPastLast | src/routes/pontos.routes.js:78 | When the inserted element passes a last element that does not tie with it, the tie classes come out as if it had been appended. |
| Sequences.InsertPastLast | src/routes/pontos.routes.js:78 | An element ordered before the last element is inserted into the prefix, and the last element stays last. |
| Sequences.SortStable | src/routes/pontos.routes.js:78 | Elements that compare equal keep their input order, as `Array.prototype.sort` guarantees. |
| Sequences.FilterSnoc | src/routes/pontos.routes.js:77 | Filtering a list with one more element filters the prefix and then decides that element. |
| Jwt.Secret | src/middlewares/autenticacao.js:17 | The secret is never empty. A set, non-empty `JWT_SECRET` is used as is. An unset or empty one gives `'dev-secret'`. |
| Jwt.Sign | src/routes/auth.routes.js:71-75 | The token decodes, under the same secret, to exactly the subject and role, issued now and expiring 604800 seconds later. It is non-empty and holds no space. |
| Jwt.Verify | src/middlewares/autenticacao.js:17 | Both directions. A token verifies exactly when its signature checks and the clock is before `exp`, and then it yields the decoded claims. A token that does not decode is invalid. It is expired exactly when the signature checks and `exp` has passed. |
| Jwt.SignThenVerify | src/routes/auth.routes.js:71-75 | A signed token verifies to its own subject and role for seven days and is rejected as expired from then on. |
| Jwt.ExpiredAfterSevenDays | src/routes/auth.routes.js:74 | 604800 + 1 seconds after issue the token is expired. |
| Autenticacao.TokenField | src/middlewares/autenticacao.js:10 | There is a second field exactly when the header contains a space, and that field holds no space. |
| Autenticacao.Authenticate | src/middlewares/autenticacao.js:3-27 | "Token não informado." exactly for a missing or empty header. "Token inválido." exactly for an absent or empty second field. "Token inválido ou expirado." exactly when verification fails. Otherwise `next` with the token's `sub` and `role`. |
| Autenticacao.Guard | src/middlewares/autenticacao.js:3-27 | A rejected request gets the 401 with its message and the state unchanged. An accepted one is exactly the handler run on the identity. |
| Autenticacao.SameTokenSameOutcome | src/middlewares/autenticacao.js:10-17 | Only the token field matters: non-empty headers with the same second field authenticate alike. |
| Autenticacao.TokenFieldOf | src/middlewares/autenticacao.js:10 | The token field of `word + " " + token + tail` is `token`, whatever the word, when the tail is empty or starts with a space. |
| Autenticacao.SchemeWordIgnored | src/middlewares/autenticacao.js:10-17 | Any scheme word and any fields after the token authenticate exactly like `"Bearer " + token`. |
| Autenticacao.EmptyTokenFieldMalformed | src/middlewares/autenticacao.js:10-14 | A header whose first space is followed by another space or by nothing is "Token inválido.". |
| Autenticacao.MissingHeaderExamples | src/middlewares/autenticacao.js:4-8 | No header and an empty header are both "Token não informado.". |
| Autenticacao.MalformedHeaderExamples | src/middlewares/autenticacao.js:10-14 | "Bearer", "Bearer " and "Bearer  x" are all "Token inválido.". |
| Autenticacao.BasicTokenField | src/middlewares/autenticacao.js:10 | The token of "Basic abc" is "abc". |
| Autenticacao.BearerTokenField | src/middlewares/autenticacao.js:10 | The token of "Bearer abc" is "abc". |
| Autenticacao.ExtraFieldTokenField | src/middlewares/autenticacao.js:10 | The token of "Bearer a b" is "a". |
| Autenticacao.ShortTokenField | src/middlewares/autenticacao.js:10 | The token of "Bearer a" is "a". |
| Autenticacao.BasicSchemeExample | src/middlewares/autenticacao.js:10-17 | "Basic abc" authenticates exactly like "Bearer abc". |
| Autenticacao.ExtraFieldExample | src/middlewares/autenticacao.js:10-17 | "Bearer a b" authenticates exactly like "Bearer a". |
| Autenticacao.GarbageTokenExample | src/middlewares/autenticacao.js:16-26 | "Bearer garbage", whose token does not decode, gets "Token inválido ou expirado.". |
| Autenticacao.RejectedSkipsHandler | src/middlewares/autenticacao.js:3-27 | A rejected request's reply and state do not depend on the handler: 401 with the state unchanged. |
| AuthRoutes.FindByEmail | src/routes/auth.routes.js:55-64 | The found row is in the table and has that e-mail. Nothing is found exactly when no row has it. |
| AuthRoutes.Register | src/routes/auth.routes.js:13-37 | Missing field: 400 and no insert. Taken e-mail: 409 and no insert. Only a 201 changes the table. 201 exactly when all fields are given, the password is a non-empty string and the e-mail is new. The 201 appends one row with the password's hash, role `user` and the sequence's next id, and returns it without the hash. A non-string password that passes the other checks gets the 500, and nothing else does. |
| AuthRoutes.Login | src/routes/auth.routes.js:49-85 | Missing field: 400. An unknown e-mail and a wrong password get the identical 401. A known e-mail with a non-string password gets the 500. Both directions: a known e-mail whose hash matches the password gets 200, and a 200 means the password matched the found user. The 200 carries a 7-day token over `{sub: id, role}` and only id, name, email and role. |
| AuthRoutes.RegisterKeepsInvariant | src/routes/auth.routes.js:19-35 | Registering keeps user ids drawn from the sequence and keeps ids and e-mails unique. |
| AuthRoutes.PasswordNotStored | src/routes/auth.routes.js:28-37 | With a sound hasher, the stored hash is never the plaintext password. |
| AuthRoutes.FindAppended | src/routes/auth.routes.js:55-64 | A row appended with a new e-mail is what the lookup finds for that e-mail. |
| AuthRoutes.RegisterThenLogin | src/routes/auth.routes.js:28-85 | Right after a successful register, logging in with the same e-mail and password returns 200 with the new user. |
| AuthRoutes.LoginThenAuthenticate | src/routes/auth.routes.js:71-75 | A login token, sent as "Bearer token", passes the middleware under the same secret for seven days. It exposes the logged-in user's id and role. Afterwards it gets "Token inválido ou expirado.". |
| Pontos.MathRound | src/routes/pontos.routes.js:72 | `Math.round` gives the integer within half a unit, halves rounded up. |
| Pontos.ParseParam | src/routes/pontos.routes.js:43-44 | An absent parameter is NaN; a present one is what `parseFloat` makes of it. |
| Pontos.Radius | src/routes/pontos.routes.js:45 | An absent or empty `raio` is 1000; any other value is parsed. |
| Pontos.Annotate | src/routes/pontos.routes.js:62-74 | Each output record is the stop row at the same position with only `distancia_metros` added. |
| Pontos.AnnotateCount | src/routes/pontos.routes.js:62-74 | Annotation keeps each stop's multiplicity. |
| Pontos.ByDistanceTotalPreorder | src/routes/pontos.routes.js:78 | The comparator `a.distancia_metros - b.distancia_metros` is a total preorder. |
| Pontos.Within | src/routes/pontos.routes.js:62-77 | A record is kept exactly when it is a stop with its rounded distance and that distance is at most the radius (boundary included). It is kept as often as the stop occurs. |
| Pontos.Nearby | src/routes/pontos.routes.js:62-78 | The result is a permutation of the stops within the radius. It is ascending by distance, and stops at equal distance keep table order. |
| Pontos.NearbyMembers | src/routes/pontos.routes.js:62-77 | Both directions: every result is a stop within the radius with its rounded distance, and every such stop is a result. |
| Pontos.Proximos | src/routes/pontos.routes.js:41-80 | A NaN lat, lng or radius gives 400 with no results. 200 exactly when all three parse, with the nearby stops as the body. |
| Pontos.DefaultRadiusUsed | src/routes/pontos.routes.js:45 | Without `raio`, or with it empty, the search uses 1000 m. |
| Pontos.NegativeRadiusFindsNothing | src/routes/pontos.routes.js:76-77 | With a non-negative distance function, a negative radius gives an empty result. |
| Pontos.OrderingExample | src/routes/pontos.routes.js:62-78 | Stops at 500 m, 200 m and 800 m, in that order, come back ordered 200, 500, 800. |
| Pontos.BoundaryExample | src/routes/pontos.routes.js:62-77 | With the 1000 m default, a stop at 1000.4 m (rounded to 1000) is found and one at 1000.5 m (rounded to 1001) is not. |
| PontosFavoritos.Add | src/routes/pontosFavoritos.routes.js:48-78 | No `stopId`: 400. Unknown stop: 404. An already-saved pair: 200 "Ponto já estava salvo como favorito.". All three leave the rows unchanged. The already-saved case still draws one value from the id sequence. 201 exactly for a new pair of an existing stop: it appends one row under the sequence's next id and returns that row. Pairs gain exactly the new pair. |
| PontosFavoritos.Remove | src/routes/pontosFavoritos.routes.js:94-109 | 404 exactly when the caller has not saved the stop, with the table unchanged. Otherwise 204 with an empty body. Exactly that pair's rows go and every other row stays. The id sequence is untouched. |
| PontosFavoritos.JoinOne | src/routes/pontosFavoritos.routes.js:24-25 | A favourite joins with exactly the stops whose id is its `stop_id`. |
| PontosFavoritos.JoinOneCount | src/routes/pontosFavoritos.routes.js:24-25 | A favourite's join holds its row with a matching stop as many times as that stop occurs. |
| PontosFavoritos.Join | src/routes/pontosFavoritos.routes.js:24-25 | The join's rows are exactly the favourite/stop combinations with matching ids. |
| PontosFavoritos.JoinCount | src/routes/pontosFavoritos.routes.js:24-25 | Over favourites with distinct ids, each favourite/matching-stop combination gives its row once per occurrence of the stop; rows of different favourites never merge. |
| PontosFavoritos.JoinMineCount | src/routes/pontosFavoritos.routes.js:24-26 | The same count holds for the join of the caller's favourites alone. |
| PontosFavoritos.List | src/routes/pontosFavoritos.routes.js:16-31 | Exactly the caller's favourites joined with their stops, newest `created_at` first. The result is a permutation of that join. Over distinct favourites, each favourite/stop row occurs once per occurrence of the stop. |
| PontosFavoritos.ListedOnce | src/routes/pontosFavoritos.routes.js:16-31 | With the table invariant and no stop row stored twice, no row is listed twice. |
| PontosFavoritos.AddKeepsInvariant | src/routes/pontosFavoritos.routes.js:64-70 | Adding keeps every id drawn from the sequence and keeps rows, ids and `(user_id, stop_id)` pairs unique. |
| PontosFavoritos.RemoveKeepsInvariant | src/routes/pontosFavoritos.routes.js:97-101 | Deleting keeps every id drawn from the sequence and keeps rows, ids and pairs unique. |
| PontosFavoritos.AddIdempotent | src/routes/pontosFavoritos.routes.js:64-76 | Saving the same stop a second time leaves the rows as the first save left them. |
| PontosFavoritos.RemoveSparesOthers | src/routes/pontosFavoritos.routes.js:97-101 | Another user's favourites are exactly what they were after a delete. |
| PontosFavoritos.ReAddGetsNewId | src/routes/pontosFavoritos.routes.js:64-101 | A favourite saved after another was saved and then deleted gets a different id: deleted ids are never reissued. |
| OnibusFavoritos.Add | src/routes/onibusFavoritos.routes.js:47-67 | No `onibusId`: 400 with the table unchanged. Otherwise always 201 "Ônibus favorito salvo com sucesso.". An existing pair leaves the table unchanged, and a new pair is appended; the pairs become the old ones plus that pair. |
| OnibusFavoritos.Remove | src/routes/onibusFavoritos.routes.js:82-96 | Always 200 "Ônibus removido dos favoritos.", even when nothing matched. Exactly the caller's row for that bus goes and every other row stays. |
| OnibusFavoritos.JoinOne | src/routes/onibusFavoritos.routes.js:23-24 | A favourite joins with exactly the buses whose id is its `onibus_id`. |
| OnibusFavoritos.JoinOneCount | src/routes/onibusFavoritos.routes.js:23-24 | A favourite's join holds its row with a matching bus as many times as that bus occurs. |
| OnibusFavoritos.Join | src/routes/onibusFavoritos.routes.js:23-24 | The join's rows are exactly the favourite/bus combinations with matching ids. |
| OnibusFavoritos.JoinCount | src/routes/onibusFavoritos.routes.js:23-24 | Over favourites of distinct buses, each favourite/matching-bus combination gives its row once per occurrence of the bus; rows of different favourites never merge. |
| OnibusFavoritos.JoinMineCount | src/routes/onibusFavoritos.routes.js:23-25 | Under the table invariant, the same count holds for the join of the caller's favourites, whose buses are distinct. |
| OnibusFavoritos.ByCodigoTotalPreorder | src/routes/onibusFavoritos.routes.js:26 | Ordering rows by bus code is a total preorder. |
| OnibusFavoritos.List | src/routes/onibusFavoritos.routes.js:16-31 | Exactly the caller's favourite buses joined with their buses, ordered by `codigo`. The result is a permutation of that join. Under the table invariant, each favourite/bus row occurs once per occurrence of the bus. |
| OnibusFavoritos.ListedOnce | src/routes/onibusFavoritos.routes.js:16-31 | With the table invariant and no bus row stored twice, no row is listed twice. |
| OnibusFavoritos.AddIdempotent | src/routes/onibusFavoritos.routes.js:56-67 | A second save of the same bus gives the same reply and leaves the table as the first save left it. |
| OnibusFavoritos.AddKeepsInvariant | src/routes/onibusFavoritos.routes.js:56-63 | Saving keeps rows and `(user_id, onibus_id)` pairs unique. |
| OnibusFavoritos.RemoveKeepsInvariant | src/routes/onibusFavoritos.routes.js:85-92 | Deleting keeps rows and pairs unique. |
| OnibusFavoritos.RemoveIdempotent | src/routes/onibusFavoritos.routes.js:85-92 | Deleting the same bus a second time changes nothing. |
| Lembretes.StartOfDay | src/routes/lembretes.routes.js:87 | `date_trunc('day', t)` is a midnight within the 24 hours up to `t`. |
| Lembretes.Create | src/routes/lembretes.routes.js:50-105 | Any of the six fields missing or falsy: 400 with nothing created. A `horario` that is not a time: 500 with nothing created. Otherwise 201: one row owned by the caller, under the sequence's next id, with the given fields and the reminder time, returned with "Lembrete criado com sucesso.". |
| Lembretes.Rows | src/routes/lembretes.routes.js:17-27 | The listed view keeps every row, in place, without `user_id`. |
| Lembretes.RowsMembers | src/routes/lembretes.routes.js:17-27 | The view's rows are exactly the views of the table's rows. |
| Lembretes.RowsCount | src/routes/lembretes.routes.js:17-27 | Among one user's reminders, each reminder's view occurs as often as the reminder. |
| Lembretes.List | src/routes/lembretes.routes.js:15-34 | Exactly the caller's reminders, ordered by `reminder_datetime`. There is one row per reminder of the caller: the length matches, and each reminder's row occurs as often as the reminder. |
| Lembretes.ListedOnce | src/routes/lembretes.routes.js:15-34 | Under the table invariant no reminder is listed twice. |
| Lembretes.Delete | src/routes/lembretes.routes.js:120-131 | An id the integer cast rejects: 500, nothing removed. Otherwise always 200 "Lembrete removido com sucesso.", and exactly the rows with that id and the caller's `user_id` go. The id sequence is untouched. |
| Lembretes.ReminderTime | src/routes/lembretes.routes.js:87 | The reminder is the time of day added to a midnight, and that midnight is the first one strictly after `now`. |
| Lembretes.ReminderTimeDay | src/routes/lembretes.routes.js:87 | The reminder falls on the calendar day after `now`, and its offset from that midnight is `horario`: the time of day is recovered from the datetime. |
| Lembretes.ReminderTimeBounds | src/routes/lembretes.routes.js:87 | For a time of day before midnight, the reminder is strictly after `now` and less than two days later. `24:00:00` reaches two days at most. |
| Lembretes.ReminderTimeMonotonic | src/routes/lembretes.routes.js:87 | A later time of day gives a later reminder. |
| Lembretes.CreatedInWindow | src/routes/lembretes.routes.js:66-87 | Every created reminder lies in `(now, now + 2 days]`. |
| Lembretes.CreateKeepsInvariant | src/routes/lembretes.routes.js:67-89 | Creating keeps reminder ids drawn from the sequence and unique. |
| Lembretes.DeleteKeepsInvariant | src/routes/lembretes.routes.js:123-129 | Deleting keeps reminder ids drawn from the sequence and unique. |
| Lembretes.DeleteSparesOthers | src/routes/lembretes.routes.js:123-129 | Another user's reminders, including one with the requested id, are untouched by a delete. |
| Lembretes.DeleteIdempotent | src/routes/lembretes.routes.js:123-129 | Deleting the same id a second time changes nothing. |
| Lembretes.DeletedIdNotReissued | src/routes/lembretes.routes.js:67-129 | A reminder created after another was created and deleted has a different id. Repeating the old delete therefore spares the new reminder. |

## Left out

- `src/server.js`: Express wiring, CORS, dotenv and `listen`. There are no decisions in it.
- `src/routes/onibus.routes.js` and `GET /pontos/:id/horarios`: single SQL queries whose rows are passed straight through.
- The Haversine body of `calcularDistanciaEmMetros`: floating-point trigonometry. The distance is a parameter, and only its non-negativity is assumed where needed.
- `parseFloat`'s prefix parsing and `Infinity`: `parseFloat` is a parameter returning `Option<real>`, with `None` standing for NaN. An infinite radius is not representable.
- Repeated query parameters, which Express turns into arrays: every query parameter is a single string.
- bcrypt internals, including its truncation of passwords to 72 bytes: `hash` and `compare` are parameters. `SoundHasher` states only that a password matches its own hash and that a hash differs from the password.
- JWT cryptography, `nbf`, clock tolerance and the `sub` claim's JSON type: signing and decoding are a `Codec` parameter. `SoundCodec` states the round trip and that tokens hold no space. Rejection of a tampered token is the codec's business and is not stated.
- PostgreSQL's `::time` parsing and its integer cast of `:id`: both are parameters. `SoundTimeCast` bounds a time of day to `[0, 86400]`.
- Time zones and daylight saving: time is UTC seconds, so `date_trunc('day', ...)` is truncation to a multiple of 86400.
- The `created_at` column defaults are taken to be the request's `now`.
- Lembretes.Delete: states which rows go, but not that the kept rows stay in their order.
- Column-type and foreign-key failures of inserts, other than the `::time` and `:id` casts: for example, a `favorite_onibus` row for a bus that does not exist. These would be 500 replies; the model accepts the row.
- Failures of the database or of a library (the catch blocks' 500 replies) and `console.error` logging.
- The check-then-insert race in `/auth/register`: the model is sequential, one request at a time.
- Numbers in JSON bodies are integers within JavaScript's safe range, ±(2^53 − 1). Only their decimal text matters (`Param`). Fractions, larger magnitudes and the exponent notation `String` uses from 10^21 on are not modelled.
- Objects and arrays in JSON bodies are `Structured` values. They are truthy and the driver's text for them (JSON, or a PostgreSQL array literal) is an opaque non-empty string.
- Ids drawn from a sequence are unbounded here; running out of the id column's range is not modelled.
- The `users.role` default is taken to be `"user"`; the schema is not part of this model.
- String order for `ORDER BY o.codigo` is code-point order (PostgreSQL's "C" collation); locale collations are not modelled.
- Ties under `ORDER BY` are unspecified in SQL. The model keeps table order for ties, which is one admissible result.
- Stop ids are taken to be text, compared by string equality in `WHERE id = $1` and `stop_id = $2`. If the column were numeric, PostgreSQL would cast the parameter instead (so `"07"` would match stop 7 and `"abc"` would fail with a 500); the schema is not part of this model.
- `pg` returns `numeric` columns as strings; latitude and longitude are reals here.
