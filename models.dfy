/** The stored entities of the tracker (core/models.py): monthly goals,
    activities, route times and Strava credentials, with the uniqueness and
    range constraints the database enforces stated as predicates.
    Kilometre amounts are DecimalFields with two decimal places and are kept
    here as whole hundredths of a kilometre. */
module Models {
  import opened Wrappers
  import Format

  /** A month number; the goal form offers exactly the choices 1..12. */
  type Month = m: int | 1 <= m <= 12 witness 1

  /** The calendar part of a timestamp that the dashboard filters on. */
  datatype Date = Date(year: int, month: Month)

  /** MetaMensal: the collective kilometre target for one month of one year. */
  datatype Goal = Goal(month: Month, year: int, targetCentiKm: int)

  datatype Kind = Corrida | Bike

  /** Atividade. `sent` is the month and year of `data_envio`, set once when
      the record is created. */
  datatype Activity = Activity(
    athlete: string,
    kind: Kind,
    centiKm: int,
    pace: Option<string>,
    sent: Date,
    stravaId: Option<string>,
    avatarUrl: Option<string>)

  /** TempoRota: a time on a community route, in whole minutes and seconds
      (both PositiveIntegerFields, which admit zero). */
  datatype RouteTime = RouteTime(athlete: string, minutes: nat, seconds: nat)

  /** TokenStrava: one user's Strava credential. */
  datatype StravaToken = StravaToken(
    userId: int,
    firstName: string,
    stravaId: string,
    accessToken: string,
    refreshToken: string,
    expiresAt: int)

  /** `strava_id` is unique among activities that have one. */
  ghost predicate UniqueStravaIds(acts: seq<Activity>) {
    forall i, j :: 0 <= i < j < |acts| && acts[i].stravaId.Some? ==>
      acts[i].stravaId != acts[j].stravaId
  }

  /** One credential per user (OneToOneField) and a unique Strava athlete id. */
  ghost predicate ValidTokens(toks: seq<StravaToken>) {
    forall i, j :: 0 <= i < j < |toks| ==>
      toks[i].userId != toks[j].userId && toks[i].stravaId != toks[j].stravaId
  }

  /** How many stored activities carry the given Strava id. */
  function CountWithId(acts: seq<Activity>, id: string): (n: nat)
    ensures n <= |acts|
    ensures n == 0 <==> forall k :: 0 <= k < |acts| ==> acts[k].stravaId != Some(id)
  {
    if |acts| == 0 then 0
    else CountWithId(acts[..|acts| - 1], id) + (if acts[|acts| - 1].stravaId == Some(id) then 1 else 0)
  }

  /** Under the uniqueness constraint, no Strava id occurs twice. */
  lemma {:induction false} UniqueMeansAtMostOne(acts: seq<Activity>, id: string)
    requires UniqueStravaIds(acts)
    ensures CountWithId(acts, id) <= 1
  {
    if |acts| > 0 {
      var init := acts[..|acts| - 1];
      assert UniqueStravaIds(init) by {
        forall i, j | 0 <= i < j < |init| && init[i].stravaId.Some?
          ensures init[i].stravaId != init[j].stravaId
        {
          assert init[i] == acts[i] && init[j] == acts[j];
        }
      }
      UniqueMeansAtMostOne(init, id);
      if acts[|acts| - 1].stravaId == Some(id) {
        assert forall k :: 0 <= k < |init| ==> init[k] == acts[k];
      }
    }
  }

  /** `tempo_total_segundos`. */
  function TotalSeconds(t: RouteTime): nat {
    t.minutes * 60 + t.seconds
  }

  /** `tempo_formatado`. */
  function Formatted(t: RouteTime): string {
    Format.ClockText(t.minutes, t.seconds)
  }

  /** The total in seconds splits back into the same minutes and seconds
      whenever the seconds field is a proper clock value. */
  lemma TotalSecondsSplits(t: RouteTime)
    ensures TotalSeconds(t) / 60 == t.minutes + t.seconds / 60
    ensures TotalSeconds(t) % 60 == t.seconds % 60
    ensures t.seconds < 60 ==> TotalSeconds(t) / 60 == t.minutes && TotalSeconds(t) % 60 == t.seconds
  {
    var q, r := t.seconds / 60, t.seconds % 60;
    assert TotalSeconds(t) == (t.minutes + q) * 60 + r;
  }

  /** Ordering route times by their total agrees with comparing minutes
      first and then seconds, for proper clock values. */
  lemma TotalSecondsOrdersLikeClock(a: RouteTime, b: RouteTime)
    requires a.seconds < 60 && b.seconds < 60
    ensures TotalSeconds(a) < TotalSeconds(b) <==>
            a.minutes < b.minutes || (a.minutes == b.minutes && a.seconds < b.seconds)
  {
    TotalSecondsSplits(a);
    TotalSecondsSplits(b);
  }

  /** The displayed "MM:SS" reads back as the stored minutes and seconds, and
      so determines the total in seconds. */
  lemma FormattedRoundTrip(t: RouteTime)
    ensures Format.ParseClock(Formatted(t)) == Some((t.minutes, t.seconds))
    ensures var p := Format.ParseClock(Formatted(t)).value; p.0 * 60 + p.1 == TotalSeconds(t)
  {
    Format.ClockRoundTrip(t.minutes, t.seconds);
  }
}
