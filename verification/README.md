# Player / coach / team store — a Dafny model

This project models the core of a small Spring REST backend that manages
players, coaches and teams. The model covers:

- the three tables and the repository primitives (`findAll`, `findById`,
  `save`, `existsById`, `deleteById`);
- the entity/DTO mapper;
- the two controllers' operations: filtered listings, lookups, create and
  update, and deletes that first clear ("scrub") every team reference to the
  deleted player or coach.

Every controller call is a pure function of the store. A write call returns
a `Reply`, which holds the answer (a value or an error) and the store left
behind; a read call returns its answer alone.

Modules, one per file:

- `Base` (`base.dfy`): `Option`, `Result`, and the exceptions as values
  (`NotFound`, `IllegalArgument`, `NullPointer`, `RuntimeFailure`).
- `Strings` (`strings.dfy`): ASCII lower-casing and `contains`.
- `Seqs` (`seqs.dfy`): the order-preserving `Filter` of a Java stream.
- `Repository` (`repository.dfy`): a `Table` of rows keyed by id, with an
  identity counter `next`.
- `Model` and `Dto` (`model.dfy`, `dto.dfy`): entities and request/response bodies.
- `EntityMapper` (`entity_mapper.dfy`): the six conversions.
- `Persistence` (`persistence.dfy`): the store.
  - A team is stored as a `TeamRow` that holds foreign keys.
  - `Hydrate` rebuilds the `Team` entity with its coach and player, as the
    eager fetch does.
  - `Valid` is the store invariant: ids match keys, the counters run ahead of
    every id, and every team's coach and player exist (`ReferencesExist`).
- `DatabaseView` (`database_view.dfy`): the `/api` controller.
- `TestApi` (`test_api.dfy`): `createTeam` of the `/api/test` controller.
- `Integrity` (`integrity.dfy`): any sequence of writes starting from an empty
  database keeps every team reference pointing at an existing row.

Three facts about this revision of the code shape the model:

- A team refers to at most one player (`Team.java:18-20`). It does not hold a
  set of players.
- An unresolvable `coachId` or `playerId` raises an `IllegalArgumentException`.
  It is not turned into a 400 response. The model returns
  `Err(IllegalArgument(...))`, and no write happens.
- No endpoint adds a player to a team or removes one from it.

Some source methods are identical to a modelled member and share its row:

- `getPlayer`, `getCoach` and `getTeam` of `DatabaseViewController.java`
  (55-61, 130-136, 222-228) are the same as those of `TestController.java`.
- `createPlayer` and `createCoach` of `TestController.java` (28-53) are the
  same as those of `DatabaseViewController.java`.

## Model

| member | source | states |
|---|---|---|
| Strings.ContainsIff | project/src/main/java/com/example/project/controller/DatabaseViewController.java:40 | the `contains` scan succeeds exactly when the needle occurs at some offset of the haystack |
| Strings.Lower | project/src/main/java/com/example/project/controller/DatabaseViewController.java:40 | `toLowerCase` keeps the length and lower-cases each character in place |
| Strings.Contains | project/src/main/java/com/example/project/controller/DatabaseViewController.java:40 | `contains` can only succeed when the needle is no longer than the haystack; `Strings.ContainsIff` states exactly when it succeeds |
| Repository.Table.ExistsById | project/src/main/java/com/example/project/controller/DatabaseViewController.java:77 | `existsById` holds exactly when `findById` finds a row |
| Repository.Table.FindById | project/src/main/java/com/example/project/controller/DatabaseViewController.java:58 | `findById` finds a row exactly when one is stored under the id, and returns that row |
| Repository.Table.FindAll | project/src/main/java/com/example/project/controller/DatabaseViewController.java:39 | `findAll` lists every stored row once, in id order, and nothing else |
| Repository.Table.Save | project/src/main/java/com/example/project/controller/DatabaseViewController.java:51 | `save` writes the row at its id, leaves every other row alone, and keeps the counter ahead of every id |
| Repository.Table.DeleteById | project/src/main/java/com/example/project/controller/DatabaseViewController.java:95 | `deleteById` removes exactly the row at the id, keeps every other row, and keeps the counter ahead |
| Persistence.FindAllTeams | project/src/main/java/com/example/project/controller/DatabaseViewController.java:188 | the team `findAll` lists every stored team once, in id order, each with its coach and player fetched |
| Seqs.Filter | project/src/main/java/com/example/project/controller/DatabaseViewController.java:39-44 | a stream filter returns exactly the input elements that pass, and never more elements than its input |
| Seqs.FilterKeepsOrder | project/src/main/java/com/example/project/controller/DatabaseViewController.java:39-44 | the filtered stream is a subsequence of its input: it keeps every passing element as often as the input has it, in input order |
| Seqs.FilterFuse | project/src/main/java/com/example/project/controller/DatabaseViewController.java:39-42 | two chained filters select what their conjunction selects |
| Seqs.FilterChain3 | project/src/main/java/com/example/project/controller/DatabaseViewController.java:40-42 | three chained filters select what their conjunction selects |
| Seqs.FilterChain4 | project/src/main/java/com/example/project/controller/DatabaseViewController.java:114-117 | four chained filters select what their conjunction selects |
| Seqs.FilterKeepsAll | project/src/main/java/com/example/project/controller/DatabaseViewController.java:40-42 | a filter that accepts every element returns its input unchanged |
| Repository.SortedKeys | project/src/main/java/com/example/project/repository/PlayerRepository.java:6 | the order `findAll` uses is strictly increasing in id and lists each id in use exactly once |
| EntityMapper.PlayerToEntity | project/src/main/java/com/example/project/mapper/EntityMapper.java:14-21 | the new player has no id and carries the request's name, surname, date of birth and personal code |
| EntityMapper.PlayerToDto | project/src/main/java/com/example/project/mapper/EntityMapper.java:23-31 | the response carries the player's id and all four fields |
| EntityMapper.PlayerRoundTrip | project/src/main/java/com/example/project/mapper/EntityMapper.java:14-31 | a request saved under id `i` reads back as id `i` with the request's fields |
| EntityMapper.PlayerToDtoInjective | project/src/main/java/com/example/project/mapper/EntityMapper.java:23-31 | the response loses nothing: two players with the same response are the same player |
| EntityMapper.CoachToEntity | project/src/main/java/com/example/project/mapper/EntityMapper.java:33-41 | the new coach has no id and carries the request's five fields |
| EntityMapper.CoachToDto | project/src/main/java/com/example/project/mapper/EntityMapper.java:43-52 | the response carries the coach's id and all five fields |
| EntityMapper.CoachRoundTrip | project/src/main/java/com/example/project/mapper/EntityMapper.java:33-52 | a coach request saved under id `i` reads back as id `i` with the request's five fields |
| EntityMapper.CoachToDtoInjective | project/src/main/java/com/example/project/mapper/EntityMapper.java:43-52 | two coaches with the same response are the same coach |
| EntityMapper.TeamToEntity | project/src/main/java/com/example/project/mapper/EntityMapper.java:54-60 | only the name and the year are taken; id, coach and player stay empty |
| EntityMapper.TeamToEntityIgnoresReferences | project/src/main/java/com/example/project/mapper/EntityMapper.java:54-60 | the request's coach and player ids have no influence on the entity |
| EntityMapper.TeamToDto | project/src/main/java/com/example/project/mapper/EntityMapper.java:62-74 | id, name and year are copied; a nested coach (player) response is present iff the entity has a coach (player) and equals that entity's response |
| EntityMapper.TeamToDtoInjective | project/src/main/java/com/example/project/mapper/EntityMapper.java:62-74 | two teams with the same response are the same team |
| Persistence.Hydrate | project/src/main/java/com/example/project/model/Team.java:14-20 | the fetched team has the row's id, name and year; when the row's keys resolve, a coach (player) is present iff the row names one, and it is a stored row |
| Persistence.HydrateRoundTrip | project/src/main/java/com/example/project/model/Team.java:14-20 | in a valid store, fetching a team and writing it back gives the same row |
| Persistence.FindTeamById | project/src/main/java/com/example/project/controller/DatabaseViewController.java:225-227 | `findById` on teams finds a team exactly when its id is stored, and returns that team fetched |
| Persistence.SavePlayer | project/src/main/java/com/example/project/controller/DatabaseViewController.java:50-51 | an id-less player gets the next identity value, fresh in a valid store; a player with an id overwrites that row; coaches and teams are untouched; validity is kept |
| Persistence.SaveCoach | project/src/main/java/com/example/project/controller/DatabaseViewController.java:125-126 | the same for coaches |
| Persistence.SaveTeam | project/src/main/java/com/example/project/controller/DatabaseViewController.java:218 | the row written holds the foreign keys of the team's coach and player; validity is kept when those keys resolve |
| DatabaseView.LikeFilterIff | project/src/main/java/com/example/project/controller/DatabaseViewController.java:40 | a set name filter matches iff the lower-cased filter occurs in the lower-cased field |
| DatabaseView.LikeFilterIgnoresCase | project/src/main/java/com/example/project/controller/DatabaseViewController.java:40-41 | lower-casing the filter or the field first does not change the outcome |
| DatabaseView.EmptyFilters | project/src/main/java/com/example/project/controller/DatabaseViewController.java:40-42 | an empty name filter accepts everything; an empty code filter accepts only an empty code |
| DatabaseView.FilterPlayers | project/src/main/java/com/example/project/controller/DatabaseViewController.java:39-42 | the three chained player filters select exactly the players that satisfy every set filter |
| DatabaseView.ListPlayers | project/src/main/java/com/example/project/controller/DatabaseViewController.java:39-44 | the listing holds, in order, exactly the response of each player of the stream that passes every filter |
| DatabaseView.PlayersListed | project/src/main/java/com/example/project/controller/DatabaseViewController.java:39-44 | a player's response is listed iff the player is in the stream and passes every set filter |
| DatabaseView.GetAllPlayers | project/src/main/java/com/example/project/controller/DatabaseViewController.java:32-45 | a player's response is listed iff the player is stored and passes every set filter |
| DatabaseView.UnfilteredPlayers | project/src/main/java/com/example/project/controller/DatabaseViewController.java:40-42 | with no filter set, every player of the stream is listed, in order |
| DatabaseView.PlayersListedInIdOrder | project/src/main/java/com/example/project/controller/DatabaseViewController.java:39 | in a valid store, listed players come out in strictly increasing id order |
| DatabaseView.ListedInIdOrder | project/src/main/java/com/example/project/controller/DatabaseViewController.java:39-44 | filtering a stream of players sorted by id leaves a listing sorted by id |
| DatabaseView.StoredPlayersInIdOrder | project/src/main/java/com/example/project/controller/DatabaseViewController.java:39 | in a valid store, `findAll` lists players that all have ids, in strictly increasing id order |
| DatabaseView.SubsequenceIncreasing | project/src/main/java/com/example/project/controller/DatabaseViewController.java:39-44 | filtering a list ordered by a key keeps it ordered by that key |
| DatabaseView.CreatePlayer | project/src/main/java/com/example/project/controller/DatabaseViewController.java:47-53 | the player is added under the next identity value, fresh in a valid store, and answered with that id and the request's fields; nothing else changes |
| DatabaseView.GetPlayer | project/src/main/java/com/example/project/controller/TestController.java:101-106 | the answer is absent iff the id is not stored, and otherwise the stored player's response, carrying that id |
| DatabaseView.CreateThenGetPlayer | project/src/main/java/com/example/project/controller/DatabaseViewController.java:47-61 | a created player gets a new id and reads back with the request's fields |
| DatabaseView.UpdatePlayer | project/src/main/java/com/example/project/controller/DatabaseViewController.java:63-70 | the row at the path id becomes the request's fields under that id; coaches and teams are untouched; validity is kept |
| DatabaseView.ScrubPlayer | project/src/main/java/com/example/project/controller/DatabaseViewController.java:81-92 | afterwards no team row refers to the player; rows that did not refer to it are unchanged; rows that did lose only that reference |
| DatabaseView.DeletePlayer | project/src/main/java/com/example/project/controller/DatabaseViewController.java:72-101 | an absent id gives NotFound and the same store; otherwise the player is gone, no team refers to it, unaffected teams are unchanged, affected teams keep coach, name and year, coaches are untouched, and validity is kept |
| DatabaseView.DeletePlayerTwice | project/src/main/java/com/example/project/controller/DatabaseViewController.java:76-79 | a repeated delete answers NotFound and changes nothing |
| DatabaseView.FilterCoaches | project/src/main/java/com/example/project/controller/DatabaseViewController.java:113-117 | the four chained coach filters select exactly the coaches that satisfy every set filter |
| DatabaseView.ListCoaches | project/src/main/java/com/example/project/controller/DatabaseViewController.java:113-119 | the listing holds, in order, exactly the response of each coach of the stream that passes every filter |
| DatabaseView.CoachesListed | project/src/main/java/com/example/project/controller/DatabaseViewController.java:113-119 | a coach's response is listed iff the coach is in the stream and passes every set filter |
| DatabaseView.GetAllCoaches | project/src/main/java/com/example/project/controller/DatabaseViewController.java:104-120 | a coach's response is listed iff the coach is stored and passes every set filter |
| DatabaseView.UnfilteredCoaches | project/src/main/java/com/example/project/controller/DatabaseViewController.java:114-117 | with no filter set, every coach of the stream is listed, in order |
| DatabaseView.CreateCoach | project/src/main/java/com/example/project/controller/DatabaseViewController.java:122-128 | the coach is added under the next identity value and answered with it; nothing else changes |
| DatabaseView.GetCoach | project/src/main/java/com/example/project/controller/TestController.java:108-113 | absent iff the id is not stored, otherwise the stored coach's response |
| DatabaseView.CreateThenGetCoach | project/src/main/java/com/example/project/controller/DatabaseViewController.java:122-136 | a created coach gets a new id and reads back with the request's fields |
| DatabaseView.UpdateCoach | project/src/main/java/com/example/project/controller/DatabaseViewController.java:138-145 | the row at the path id becomes the request's fields; players and teams are untouched; validity is kept |
| DatabaseView.ScrubCoach | project/src/main/java/com/example/project/controller/DatabaseViewController.java:156-167 | afterwards no team row refers to the coach; rows that did not refer to it are unchanged; rows that did lose only that reference |
| DatabaseView.DeleteCoach | project/src/main/java/com/example/project/controller/DatabaseViewController.java:147-176 | an absent id gives NotFound and the same store; otherwise the coach is gone, no team refers to it, other team fields and all players are untouched, and validity is kept |
| DatabaseView.DeleteCoachTwice | project/src/main/java/com/example/project/controller/DatabaseViewController.java:151-154 | a repeated delete answers NotFound and changes nothing |
| DatabaseView.EvalTeamFilters | project/src/main/java/com/example/project/controller/DatabaseViewController.java:189-192 | the four team filters, run in order on one team, throw exactly when a set filter reads a null field and every earlier filter passed (a failing filter stops the chain), and otherwise decide exactly the conjunction of the set filters |
| DatabaseView.FilterTeams | project/src/main/java/com/example/project/controller/DatabaseViewController.java:188-194 | the stream throws iff some team makes a filter throw, and otherwise keeps the matching teams in order |
| DatabaseView.GetAllTeams | project/src/main/java/com/example/project/controller/DatabaseViewController.java:179-195 | the listing fails with a null dereference iff some stored team makes a filter throw, and is otherwise the response of each matching team in store order |
| DatabaseView.UnfilteredTeams | project/src/main/java/com/example/project/controller/DatabaseViewController.java:189-192 | with no filter set, the listing succeeds and holds every team in store order |
| DatabaseView.FilterTeamsUnfiltered | project/src/main/java/com/example/project/controller/DatabaseViewController.java:188-194 | with no filter set, the team stream neither throws nor drops a team |
| DatabaseView.MissingAssociationNeverMatches | project/src/main/java/com/example/project/controller/DatabaseViewController.java:191-192 | a team without a coach (player) never passes a set coach (player) filter |
| DatabaseView.NamelessTeamBreaksNameFilter | project/src/main/java/com/example/project/controller/DatabaseViewController.java:189 | one stored team without a name makes every name-filtered listing fail |
| DatabaseView.ResolveReferences | project/src/main/java/com/example/project/controller/DatabaseViewController.java:204-216 | resolution fails iff a supplied coach or player id is not stored, and names the coach first; on success the supplied ids are replaced by the stored entities and an unsupplied association stays as it was |
| DatabaseView.ResolvedRowIsRequested | project/src/main/java/com/example/project/controller/DatabaseViewController.java:202-218 | in a valid store, the row written for a resolved team holds exactly the supplied ids, and no id where none was supplied |
| DatabaseView.CreateTeam | project/src/main/java/com/example/project/controller/DatabaseViewController.java:197-220 | fails with no store change iff a supplied coach or player id is missing; on success exactly one fresh team row is added holding the supplied ids, name and year; players and coaches are untouched; validity is kept |
| DatabaseView.GetTeam | project/src/main/java/com/example/project/controller/TestController.java:115-120 | absent iff the id is not stored, otherwise the fetched team's response carrying that id |
| DatabaseView.UpdateTeam | project/src/main/java/com/example/project/controller/DatabaseViewController.java:230-254 | fails with no store change iff a supplied id is missing; on success the row at the path id holds the supplied ids, so an unsupplied association ends up empty; validity is kept |
| DatabaseView.DeleteTeam | project/src/main/java/com/example/project/controller/DatabaseViewController.java:256-272 | an absent id gives NotFound and the same store; otherwise only that team is removed, and players and coaches are untouched |
| TestApi.CreateTeam | project/src/main/java/com/example/project/controller/TestController.java:55-99 | a missing name or year fails before any lookup or write; a missing coach or player fails with no write; every failure is one wrapped runtime exception; on success one fresh team holds the request's name, year and ids |
| TestApi.AgreesWithDatabaseView | project/src/main/java/com/example/project/controller/TestController.java:66-98 | with name and year present, the test endpoint leaves the same store as `POST /api/teams`, and answers the same value or the same error wrapped |
| Integrity.Step | project/src/main/java/com/example/project/controller/DatabaseViewController.java:47-272 | every write endpoint of this controller and `createTeam` of `TestController.java` (55-99), whether it succeeds or fails, takes a valid store to a valid one |
| Integrity.Run | project/src/main/java/com/example/project/controller/DatabaseViewController.java:47-272 | any sequence of write calls, including `createTeam` of `TestController.java` (55-99), keeps a valid store valid |
| Integrity.ReachableStoresKeepReferences | project/src/main/java/com/example/project/controller/DatabaseViewController.java:47-272 | from an empty database, no sequence of write calls (those of this controller and `createTeam` of `TestController.java`, 55-99) leaves a team referring to a missing coach or player |

## Left out

- HTTP routing, status codes and Spring annotations are not modelled.
  `ResponseEntity` becomes a `Result`, and a `null` body becomes `None`.
  Lombok accessors and all logging are left out as well.
- The catch-all `internalServerError` branches of the three deletes are not
  modelled. The in-memory store never throws, so these branches cannot be
  reached.
- `findAll` order: JPA does not specify one. The model lists rows in
  ascending id order.
- Identity generation is modelled as a per-table counter. The counter hands
  out each id once and never reuses one.
- Updating an id that does not exist (Hibernate merge of a detached entity):
  `UpdatePlayer`, `UpdateCoach` and `UpdateTeam` are modelled as an upsert at
  the path id.
- `toLowerCase` is modelled as ASCII lower-casing. Locale and Unicode case
  mapping are not modelled.
- Dates (`LocalDate`) are modelled as an opaque day number. Only equality of
  dates matters here.
- Player and coach string and date fields are never null in the model. The
  null-pointer failures those fields could cause in the listings are not
  modelled. Team name and year may be null, as the code allows.
- Java `Integer` is 32 bits wide. Ids, years and the identity counter are
  unbounded integers in the model.
- Dangling foreign keys can only occur in an invalid store. JPA would fail to
  fetch such a team. `Hydrate` drops the reference instead.
- `CoachRepository` and `TeamRepository` are modelled by the same `Table` as
  `PlayerRepository` (`Store.coaches` and `Store.teams`), on the assumption
  that they are the same `JpaRepository` interface over their own entity.
- Concurrency is not modelled. That includes the non-transactional scrub and
  its races: every call runs alone, against one store value.
- `DeletePlayer` and `DeleteCoach`: the guarantee "no team refers to the id
  afterwards" is stated when the id existed, or when the store was valid. A
  NotFound answer leaves an invalid store exactly as it was.
