# Running-club tracker: Strava sync and dashboard, modelled in Dafny

The tracker is a Django site where athletes log kilometres (runs and bike
rides) toward a collective monthly goal, the "tank". This project models
three parts of it:

- **The Strava sync command** (`core/management/commands/sync_strava.py`).
  For every stored Strava credential it does three things:
  - renews the access token when `now >= expires_at`, and skips the
    credential when Strava refuses the renewal;
  - fetches the athlete's newest activity;
  - stores that activity unless its Strava id is already stored or it is
    100 m or shorter.

  A new record gets these fields:
  - the athlete's first name;
  - `bike` for a "Ride" and `corrida` otherwise;
  - the distance rounded to hundredths of a km;
  - an "MM:SS" pace;
  - the avatar of the athlete's first stored record that has one, or a
    default picture.
- **The stored entities** (`core/models.py`), with their constraints:
  - monthly goals;
  - activities, whose Strava id is unique;
  - route times, with their total in seconds and their "MM:SS" text;
  - Strava credentials, one per user and with a unique Strava id.
- **The dashboard view** (`core/views.py`, `dashboard`). It computes:
  - the month's goal, 1000 km when none is stored;
  - the tank total over the current month *and year*;
  - the fill percentage, rounded to two decimals and capped at 100;
  - the ranking of athletes by kilometres over the current month *of any
    year*.

Files:
- `wrappers.dfy`: `Option` and `Result`.
- `rounding.dfy`: Python's `round` on exact decimals (half to even).
- `format.dfy`: the `f"{n:02d}"` and "MM:SS" texts and a reader for them.
- `models.dfy`: entities and store constraints.
- `sync.dfy`: the sync command. It has two layers:
  - the pure step `SyncOne` and run `Run`;
  - the class `SyncCommand`, whose `Handle` method loops over the
    credential table and updates the store in place.
- `dashboard.dfy`: the dashboard.

Conventions:
- Kilometre amounts are whole hundredths of a kilometre, like the
  two-decimal `DecimalField`s. The percentage is in hundredths of a percent,
  so 100 % is 10000.
- Strava's replies are inputs: one refresh reply and one fetch reply per
  credential. The command reports each request it sends, with the token it
  carries.
- The clock is the parameter `now`, read once per run.
- The Python `continue` after a refused renewal is the early `return` in
  `SyncCommand.SyncCredential`.

## Model

| member | source | states |
|---|---|---|
| Sync.SyncOne | core/management/commands/sync_strava.py:21-96 | One credential's turn. The owner and Strava athlete of the credential are unchanged. At least one request is sent. The store only grows, by at most one record, and it grows exactly when the outcome is "appended". The appended record carries a Strava id that was not stored before. |
| Sync.Expired | core/management/commands/sync_strava.py:26 | A credential has expired when the clock has reached `expires_at`. |
| Sync.ExpiresIn | core/management/commands/sync_strava.py:42 | The token lifetime from the renewal reply, 21600 s when the reply has none. |
| Sync.Renewed | core/management/commands/sync_strava.py:37-43 | After an accepted renewal, the credential holds the reply's access and refresh tokens and expires at now plus the lifetime. Its owner and Strava athlete stay. |
| Sync.StoredId | core/management/commands/sync_strava.py:59 | The `filter(strava_id=...).exists()` query: some stored record carries the id. |
| Sync.Ingest | core/management/commands/sync_strava.py:54-96 | The second half of the loop body as a value: the fetch outcome, the duplicate check, the 100 m filter and the append, in the source's branch order. |
| Sync.NewRecord | core/management/commands/sync_strava.py:76-91 | The record `create` stores: name, kind, rounded km, pace, date, Strava id and avatar. |
| Sync.Classify | core/management/commands/sync_strava.py:62-64 | The kind is `bike` for the type "Ride" and `corrida` for every other type or none. |
| Sync.PaceSeconds | core/management/commands/sync_strava.py:67-70 | Seconds per km, rounded down: moving time over the distance in km. |
| Sync.PaceText | core/management/commands/sync_strava.py:67-73 | The stored pace: "MM:SS" of the per-km time, and the empty text for a zero distance. |
| Sync.KmHundredths | core/management/commands/sync_strava.py:86 | `round(distance / 1000, 2)`: the hundredths of a km are within half a hundredth of the distance. |
| Sync.FirstAvatar | core/management/commands/sync_strava.py:79-82 | Returns an avatar exactly when some stored record of that athlete has one. It is the avatar of the first such record. |
| Sync.Run | core/management/commands/sync_strava.py:15-96 | The loop over all credentials, in table order. There is one outcome and one credential per input credential. The old store is a prefix of the new one, which holds at most one new record per credential. |
| Sync.RunKeepsOwners | core/management/commands/sync_strava.py:21-47 | A run changes no credential's owner or Strava athlete, only its tokens and expiry. |
| Sync.RunKeepsUnique | core/management/commands/sync_strava.py:21-91 | A run keeps the store's Strava ids unique. |
| Sync.SyncCommand.Handle | core/management/commands/sync_strava.py:11-98 | The command: the new store, the credential table, the outcomes and the requests sent are those of `Run` on the old state. The store and credential constraints are preserved. An empty credential table changes nothing. |
| Sync.SyncCommand.SyncCredential | core/management/commands/sync_strava.py:21-96 | The loop body for credential i: the store, credential i, the outcome and the requests equal one `SyncOne` step. The other credentials are unchanged, and the store and credential constraints are kept. |
| Sync.SyncCommand.IngestLatest | core/management/commands/sync_strava.py:54-96 | Examining the fetched list updates the store and outcome exactly as `Ingest` describes, and keeps Strava ids unique. |
| Sync.SyncCommand.constructor | core/management/commands/sync_strava.py:15 | The command starts from the activity store and the credential table (`TokenStrava.objects.all()`), both satisfying their constraints. |
| Sync.SameOwnersKeepValid | core/models.py:79-81 | Credentials with unchanged owners and Strava ids keep "one per user, unique Strava id". |
| Sync.AppendKeepsUnique | core/models.py:26 | Appending a record whose Strava id is not yet stored keeps Strava ids unique. |
| Sync.SyncOneKeepsUnique | core/management/commands/sync_strava.py:59-91 | Every step keeps the store's unique-Strava-id constraint. |
| Sync.IngestKeepsUnique | core/management/commands/sync_strava.py:54-91 | Examining a fetched list keeps the store's Strava ids unique. |
| Sync.UnexpiredTokenUsedAsIs | core/management/commands/sync_strava.py:25-52 | A token that has not expired is not renewed. Exactly one fetch is sent, with the stored access token. |
| Sync.RefreshIffExpired | core/management/commands/sync_strava.py:26-35 | A renewal request is sent if and only if `now >= expires_at`. It is then the first request and carries the stored refresh token. |
| Sync.SuccessfulRefreshRenewsToken | core/management/commands/sync_strava.py:37-43 | After an accepted renewal both tokens are the reply's. The expiry is now plus `expires_in`, or plus 21600 s when the reply has none. The fetch uses the new access token. |
| Sync.FailedRefreshSkipsCredential | core/management/commands/sync_strava.py:45-47 | A refused renewal sends nothing more for that credential and changes neither the store nor the credential. |
| Sync.IngestRules | core/management/commands/sync_strava.py:54-91 | A failed or empty fetch stores nothing. An already stored Strava id stores nothing. A distance of 100 m or less stores nothing. Otherwise exactly the new record is appended. |
| Sync.StoredOnlyAbove100m | core/management/commands/sync_strava.py:60-66 | A record is stored only from a 200 reply with at least one activity longer than 100 m. |
| Sync.NewRecordFields | core/management/commands/sync_strava.py:55-91 | Fields of the new record: the Strava id as decimal text; `bike` if and only if the type is "Ride"; the owner's first name; today's date. The km value is within half a hundredth of the distance. The pace reads back as its minutes and seconds. |
| Sync.AvatarRule | core/management/commands/sync_strava.py:76-82 | The avatar is that of the athlete's first stored record with an avatar, or the default picture when none has one. |
| Sync.PaceBounds | core/management/commands/sync_strava.py:67-70 | The pace in whole seconds per km is the moving time per km rounded down. |
| Sync.PaceIsMinutesAndSeconds | core/management/commands/sync_strava.py:67-73 | The pace text reads back as minutes and seconds below 60 that make up the rounded-down pace. |
| Sync.SecondsAsClock | core/management/commands/sync_strava.py:71-73 | A number of seconds written as "MM:SS" from its `// 60` and `% 60` reads back as parts that add up to it. |
| Sync.PaceMatchesRealArithmetic | core/management/commands/sync_strava.py:69-72 | The integer pace equals `int(p // 60)` and `int(p % 60)` for the real-valued `p = moving_time / (distance / 1000)`. |
| Sync.PaceExample | core/management/commands/sync_strava.py:67-73 | 330 s over 1000 m gives "05:30". |
| Sync.PaceFitsColumnIff | core/models.py:22 | The pace fits the 5-character `pace` column if and only if it is under 100 minutes per km. |
| Sync.PaceCanOverflowColumn | core/management/commands/sync_strava.py:66-73 | 101 m in 25 minutes passes the 100 m filter and gives the 6-character pace "247:31". |
| Sync.SecondSyncOfSameActivityIsNoOp | core/management/commands/sync_strava.py:56-59 | Once an activity is stored, fetching it again adds nothing, with any credential at any time. The store holds exactly one record with its id. |
| Sync.StepIsSettled | core/management/commands/sync_strava.py:54-59 | Repeating a step later, against a store that holds the step's ids, adds nothing. |
| Sync.RunThenSettled | core/management/commands/sync_strava.py:21-59 | Repeating a run later, against a store that holds the run's ids, adds nothing. |
| Sync.SecondRunStoresNothing | core/management/commands/sync_strava.py:15-59 | Running the sync again, no earlier and with the same replies, stores nothing more. |
| Sync.RejectedFirstIsIsolated | core/management/commands/sync_strava.py:45-47 | A refused renewal of the first credential leaves the rest of the run as if that credential were absent. |
| Sync.RejectedRefreshIsIsolated | core/management/commands/sync_strava.py:21-47 | A credential whose renewal is refused does not disturb the others. The store and their outcomes are those of the run without it, and the credential itself is unchanged. |
| Sync.SyncOneFetches | core/management/commands/sync_strava.py:49-52 | A step that gets past the renewal fetches with the token in use and ingests the reply. |
| Sync.RemainingAdvances | core/management/commands/sync_strava.py:21 | One credential's step moves the loop invariant of `Handle` forward by one. |
| Models.CountWithId | core/models.py:26 | The number of records with a Strava id is zero exactly when none has it. |
| Models.UniqueStravaIds | core/models.py:26 | The unique constraint on `strava_id`: no two records share a non-null id. |
| Models.ValidTokens | core/models.py:80-81 | One credential per user (`OneToOneField`) and unique Strava athlete ids. |
| Models.TotalSeconds | core/models.py:64-66 | `tempo_total_segundos`: minutes times 60 plus seconds. |
| Models.Formatted | core/models.py:68-70 | `tempo_formatado`: both fields zero-padded to two digits, joined by a colon. |
| Models.UniqueMeansAtMostOne | core/models.py:26 | Under the uniqueness constraint no Strava id is stored twice. |
| Models.TotalSecondsSplits | core/models.py:64-66 | The total splits back into minutes and seconds. With seconds below 60 it gives the same fields. |
| Models.TotalSecondsOrdersLikeClock | core/models.py:64-66 | Comparing totals equals comparing minutes and then seconds. |
| Models.FormattedRoundTrip | core/models.py:68-70 | "MM:SS" reads back as the stored minutes and seconds and determines the total in seconds. |
| Format.Digits | core/models.py:70 | Decimal text is non-empty and all digits. It is one digit exactly for numbers below 10, and it starts with "0" only for zero, so longer text has no leading zero. |
| Format.PadTwo | core/models.py:70 | `f"{n:02d}"`: at least two digits, with no leading zero beyond the padding. |
| Format.DigitsRoundTrip | core/models.py:70 | Decimal text reads back as its number. |
| Format.DigitsInjective | core/models.py:70 | Two numbers have the same decimal text if and only if they are equal. |
| Format.DigitsLength | core/models.py:70 | At most two digits if and only if the number is below 100. |
| Format.PadTwoRoundTrip | core/models.py:70 | The zero-padded field reads back as its number. |
| Format.PadTwoLength | core/models.py:70 | The padded field is two characters if and only if the number is below 100. |
| Format.ClockRoundTrip | core/models.py:68-70 | "MM:SS" text reads back as the two fields. |
| Format.ClockLength | core/models.py:70 | The text is five characters if and only if both fields are below 100. |
| Rounding.RoundHalfEven | core/management/commands/sync_strava.py:86 | `round` to the nearest, ties to even: at most half a unit away, and even on a tie. |
| Rounding.RoundAtLeast | core/views.py:22-23 | A quotient of at least k rounds to at least k. |
| Rounding.RoundReachesIff | core/views.py:22-23 | For an even k, a quotient rounds to k or more if and only if it is at least k - 1/2, for either sign of the divisor. |
| Dashboard.FindGoal | core/views.py:11 | The first goal stored for today's month and year, or none when no goal matches. |
| Dashboard.GoalValueRule | core/views.py:11-12 | The goal is that first matching goal, and 1000 km when there is none. |
| Dashboard.GoalValue | core/views.py:11-12 | The goal's target for the month, or 1000 km. |
| Dashboard.MonthTotal | core/views.py:15-18 | Sum of the km of the activities in the current month and year, 0 when there are none. |
| Dashboard.MonthTotalAppend | core/views.py:15-18 | The month total is additive over the store. |
| Dashboard.MonthTotalEmptyMonth | core/views.py:15-18 | With no activity in the month and year, the total is 0. |
| Dashboard.MonthTotalAddOne | core/views.py:15-18 | One more activity adds its km exactly when it is in the current month and year. |
| Dashboard.SyncedRecordFillsTank | core/views.py:15-18 | A record stored by the sync adds its km to the tank of the month it was synced in. |
| Dashboard.Percentage | core/views.py:22-23 | A zero goal is an error (a division by zero), and only a zero goal is. Otherwise the result is at most 100 %. |
| Dashboard.PercentageIsRoundedShareCapped | core/views.py:22-23 | Below the cap, the percentage is total/goal rounded to the nearest hundredth of a percent, ties to even. The tank shows 100 % if and only if the share is at least 99.995 %, for a positive or a negative goal. A reached goal therefore shows 100 %. |
| Dashboard.MonthEntriesAthletes | core/views.py:26-27 | The ranking's input names exactly the athletes with an activity in the month, of any year. |
| Dashboard.MonthEntries | core/views.py:26-27 | The month-only filter: athlete and km of every activity sent in that month number, of any year. |
| Dashboard.AthleteTotal | core/views.py:28 | `Sum('quantidade_km')` for one athlete over the entries. |
| Dashboard.Standings | core/views.py:28 | `values('nome_usuario').annotate(total=...)`: one standing per athlete with an entry. |
| Dashboard.Insert | core/views.py:28 | Places one standing before the first with a smaller total. |
| Dashboard.SortDesc | core/views.py:28 | `order_by('-total')` as an insertion sort. |
| Dashboard.Ranking | core/views.py:26-28 | The ranking: the month's entries grouped by athlete and ordered by total. |
| Dashboard.Athletes | core/views.py:28 | Grouping by name: each athlete with an entry appears exactly once. |
| Dashboard.StandingsOf | core/views.py:28 | One standing per athlete, holding the sum of that athlete's km. |
| Dashboard.InsertPermutes | core/views.py:28 | Placing one standing only adds it. |
| Dashboard.InsertKeepsOrder | core/views.py:28 | Placing one standing keeps totals non-increasing. |
| Dashboard.InsertKeepsDistinct | core/views.py:28 | Placing a standing of a new athlete keeps athletes distinct. |
| Dashboard.SortDescPermutes | core/views.py:28 | `order_by('-total')` only reorders the standings. |
| Dashboard.SortDescOrders | core/views.py:28 | After ordering, the totals are non-increasing. |
| Dashboard.SortDescKeepsDistinct | core/views.py:28 | Ordering keeps each athlete once. |
| Dashboard.SortDescKeepsKm | core/views.py:28 | Ordering keeps the sum of the totals. |
| Dashboard.StandingsOfKeepKm | core/views.py:28 | Grouping by distinct names that cover all entries keeps the sum of the km. |
| Dashboard.MonthEntriesKm | core/views.py:15-27 | When no activity of the month comes from another year, the ranking's input adds up to the tank total. |
| Dashboard.RankingOrdered | core/views.py:26-28 | The ranking is by non-increasing total and names each athlete once. |
| Dashboard.RankingTotals | core/views.py:26-28 | Each athlete's total is the sum of that athlete's km in the month. |
| Dashboard.RankingMembers | core/views.py:26-28 | An athlete is ranked if and only if they have an activity in the month, of any year. |
| Dashboard.RankingAddsUpToMonth | core/views.py:15-28 | The ranking totals add up to the month's km, all years included. They equal the tank total when no activity of this month comes from another year. |
| Dashboard.RankingIgnoresYear | core/views.py:26-27 | The ranking does not depend on the years of the activities. |
| Dashboard.MonthEntriesIgnoreYear | core/views.py:26-27 | The month filter does not look at the year. |
| Dashboard.TankAndRankingDifferOnYear | core/views.py:15-27 | An activity from this month of last year is ranked but not counted in the tank. |
| Dashboard.DashboardView | core/views.py:7-36 | The page values. The view fails exactly when the goal is zero. Otherwise the percentage is at most 100 % and the ranking is ordered with each athlete once. |

## Left out

- HTTP requests and replies, JSON decoding, settings (client id and secret), console output and page rendering. Strava's replies are inputs and the rendered context is a value.
- Exceptions the command does not catch end the run part-way. The model has none of them: network errors, a refresh or activity reply without the expected fields, and database errors.
- The ORM is modelled as sequences in primary-key order. `filter(...).first()` takes the first in that order, which is the order `Atividade` and `MetaMensal` fall back to without a `Meta.ordering`.
- Floating point is not modelled. `distance / 1000.0` rounded with `round(..., 2)` is half-to-even on the exact decimal value. The Decimal arithmetic of the percentage is exact rationals rounded half-to-even. IEEE and 28-digit Decimal rounding effects near ties are not modelled.
- Sync.RemoteActivity: distances are whole metres. Strava's fractional metres are not modelled.
- Sync.SyncOne: the clock is one `now` per run. The code reads it once for the expiry test and again for the new expiry, and time passing between credentials is not modelled.
- Sync.SuccessfulRefreshRenewsToken: a 200 renewal reply that lacks the token fields is modelled as carrying strings. The code would store `None` in a non-null column and fail.
- Sync.SyncCommand.Handle: replies are given one per credential, in table order.
- Models: `foto_comprovante`, `medalha`, `Rota` and its map coordinates, `data_registro`, and `__str__` carry no behaviour of the core.
- Models.Activity: the `DecimalField` digit limits (5 digits for an activity, 7 for a goal) and the `URLField`/`CharField` length limits are not enforced. The 5-character `pace` limit is stated as a property (Sync.PaceFitsColumnIff, Sync.PaceCanOverflowColumn) rather than imposed, because the sync can produce longer text.
- Models.RouteTime: `PositiveIntegerField` has no upper bound here. Minutes and seconds are unbounded naturals, and seconds of 60 or more are allowed, as in the database.
- Models.Date: dates keep only year and month, the two parts the dashboard filters on. Time zones (the stored aware timestamp against the view's naive `datetime.now()`) are not modelled.
- Dashboard.RankingOrdered: the order among athletes with equal totals is left open by the code. The model breaks ties in one fixed order, and the lemmas state only non-increasing totals.
- The athlete name on a synced record is the user's first name exactly, with no fallback for an empty name.
- The manual logging view `registrar_km`, the forms, URL routing, admin registration, image upload, login and Strava OAuth callback views, and the streak and challenge features are outside this model.
