/** The Strava sync command (core/management/commands/sync_strava.py).
    For every stored credential it renews the token when it has expired,
    asks Strava for the athlete's newest activity and stores it unless it
    is already stored or is 100 m or shorter.

    The network is replaced by data: each credential comes with the reply
    Strava would give to the token refresh and to the activity fetch, and
    the command reports the calls it makes (which refresh token and which
    access token it sends). The clock is the parameter `now`. */
module Sync {
  import opened Wrappers
  import opened Models
  import Format
  import Rounding

  /** Lifetime assumed when the refresh reply has no `expires_in`. */
  const DefaultExpiresIn: int := 21600

  /** Picture used when the athlete has no earlier picture in the store. */
  const DefaultAvatar: string := "https://cdn-icons-png.flaticon.com/512/149/149071.png"

  /** A clock reading: seconds, for comparing with `expires_at`, and the
      calendar date stamped on records created at that moment. */
  datatype Instant = Instant(seconds: int, date: Date)

  /** Reply to the token refresh POST; the fields are read only when the
      status is 200. */
  datatype RefreshReply = RefreshReply(
    status: int,
    accessToken: string,
    refreshToken: string,
    expiresIn: Option<int>)

  /** One element of the activity list: Strava's id, distance in metres,
      moving time in seconds and the optional `type` field. */
  datatype RemoteActivity = RemoteActivity(
    id: nat,
    distanceMetres: nat,
    movingTime: nat,
    activityType: Option<string>)

  /** Reply to the activity list GET (newest first, one per page). */
  datatype FetchReply = FetchReply(status: int, items: seq<RemoteActivity>)

  /** What Strava answers for one credential in one run. */
  datatype Reply = Reply(refresh: RefreshReply, fetch: FetchReply)

  /** A request sent to Strava, with the token it carries. */
  datatype Call = RefreshCall(refreshToken: string) | FetchCall(accessToken: string)

  /** What happened to one credential. */
  datatype Outcome = RefreshFailed | FetchFailed | AlreadyStored | TooShort | Appended(record: Activity)

  datatype Step = Step(activities: seq<Activity>, token: StravaToken, calls: seq<Call>, outcome: Outcome)

  datatype RunResult = RunResult(
    activities: seq<Activity>,
    tokens: seq<StravaToken>,
    outcomes: seq<Outcome>,
    calls: seq<Call>)

  predicate Expired(tok: StravaToken, now: Instant) {
    now.seconds >= tok.expiresAt
  }

  function ExpiresIn(reply: RefreshReply): int {
    match reply.expiresIn
    case Some(e) => e
    case None => DefaultExpiresIn
  }

  /** The credential after a successful refresh. */
  function Renewed(tok: StravaToken, reply: RefreshReply, now: Instant): StravaToken {
    tok.(accessToken := reply.accessToken,
         refreshToken := reply.refreshToken,
         expiresAt := now.seconds + ExpiresIn(reply))
  }

  /** Both tokens keep the same owner and Strava athlete. */
  predicate SameOwner(a: StravaToken, b: StravaToken) {
    a.userId == b.userId && a.firstName == b.firstName && a.stravaId == b.stravaId
  }

  /** The query `Atividade.objects.filter(strava_id=id).exists()`. */
  predicate StoredId(acts: seq<Activity>, id: string) {
    exists k :: 0 <= k < |acts| && acts[k].stravaId == Some(id)
  }

  /** The avatar of the first stored activity of that athlete that has one. */
  function FirstAvatar(acts: seq<Activity>, name: string): (r: Option<string>)
    ensures r.Some? <==> exists k :: 0 <= k < |acts| && acts[k].athlete == name && acts[k].avatarUrl.Some?
    ensures r.Some? ==> exists k :: FirstWithAvatar(acts, name, k) && acts[k].avatarUrl == r
  {
    if |acts| == 0 then None
    else if acts[0].athlete == name && acts[0].avatarUrl.Some? then acts[0].avatarUrl
    else
      var r := FirstAvatar(acts[1..], name);
      assert forall k :: 1 <= k < |acts| ==> acts[k] == acts[1..][k - 1];
      r
  }

  function Classify(activityType: Option<string>): Kind {
    if activityType == Some("Ride") then Bike else Corrida
  }

  /** Seconds per kilometre, rounded down: moving time over distance in km. */
  function PaceSeconds(movingTime: nat, metres: nat): nat
    requires metres > 0
  {
    (1000 * movingTime) / metres
  }

  /** The pace text the command stores. */
  function PaceText(movingTime: nat, metres: nat): string {
    if metres > 0 then
      var p := PaceSeconds(movingTime, metres);
      Format.ClockText(p / 60, p % 60)
    else ""
  }

  /** `round(distance / 1000, 2)` in hundredths of a kilometre. */
  function KmHundredths(metres: nat): (c: int)
    ensures 2 * Rounding.Abs(metres - 10 * c) <= 10
  {
    Rounding.RoundHalfEven(metres, 10)
  }

  /** The record created for a fetched activity. */
  function NewRecord(acts: seq<Activity>, tok: StravaToken, item: RemoteActivity, now: Instant): Activity {
    var avatar := match FirstAvatar(acts, tok.firstName)
      case Some(url) => url
      case None => DefaultAvatar;
    Activity(tok.firstName, Classify(item.activityType), KmHundredths(item.distanceMetres),
             Some(PaceText(item.movingTime, item.distanceMetres)), now.date,
             Some(Format.Digits(item.id)), Some(avatar))
  }

  /** Steps 2 and later for one credential: look at the fetched list and
      store its newest activity if it is new and longer than 100 m. */
  function Ingest(acts: seq<Activity>, tok: StravaToken, reply: FetchReply, now: Instant): (seq<Activity>, Outcome) {
    if reply.status == 200 && |reply.items| > 0 then
      var item := reply.items[0];
      if StoredId(acts, Format.Digits(item.id)) then (acts, AlreadyStored)
      else if item.distanceMetres > 100 then
        var record := NewRecord(acts, tok, item, now);
        (acts + [record], Appended(record))
      else (acts, TooShort)
    else (acts, FetchFailed)
  }

  /** One pass of the loop body for one credential. */
  function SyncOne(acts: seq<Activity>, tok: StravaToken, reply: Reply, now: Instant): (s: Step)
    ensures SameOwner(s.token, tok)
    ensures |s.calls| >= 1
    ensures acts <= s.activities && |s.activities| <= |acts| + 1
    ensures s.outcome.Appended? <==> |s.activities| == |acts| + 1
    ensures s.outcome.Appended? ==> s.activities == acts + [s.outcome.record]
    ensures s.outcome.Appended? ==> s.outcome.record.stravaId.Some? &&
                                    !StoredId(acts, s.outcome.record.stravaId.value)
  {
    if Expired(tok, now) then
      if reply.refresh.status == 200 then
        var tok' := Renewed(tok, reply.refresh, now);
        var (acts', outcome) := Ingest(acts, tok', reply.fetch, now);
        Step(acts', tok', [RefreshCall(tok.refreshToken), FetchCall(tok'.accessToken)], outcome)
      else
        Step(acts, tok, [RefreshCall(tok.refreshToken)], RefreshFailed)
    else
      var (acts', outcome) := Ingest(acts, tok, reply.fetch, now);
      Step(acts', tok, [FetchCall(tok.accessToken)], outcome)
  }

  /** Appending an activity whose Strava id is not yet stored keeps ids unique. */
  lemma AppendKeepsUnique(acts: seq<Activity>, a: Activity)
    requires UniqueStravaIds(acts)
    requires a.stravaId.Some? ==> !StoredId(acts, a.stravaId.value)
    ensures UniqueStravaIds(acts + [a])
  {
    var acts' := acts + [a];
    forall i, j | 0 <= i < j < |acts'| && acts'[i].stravaId.Some?
      ensures acts'[i].stravaId != acts'[j].stravaId
    {
      if j == |acts| {
        assert acts'[i] == acts[i];
      } else {
        assert acts'[i] == acts[i] && acts'[j] == acts[j];
      }
    }
  }

  /** Looking at a fetched list keeps the store's unique-Strava-id
      constraint. */
  lemma IngestKeepsUnique(acts: seq<Activity>, tok: StravaToken, reply: FetchReply, now: Instant)
    requires UniqueStravaIds(acts)
    ensures UniqueStravaIds(Ingest(acts, tok, reply, now).0)
  {
    var (acts', outcome) := Ingest(acts, tok, reply, now);
    if outcome.Appended? {
      AppendKeepsUnique(acts, outcome.record);
    }
  }

  /** Every step keeps the store's unique-Strava-id constraint. */
  lemma SyncOneKeepsUnique(acts: seq<Activity>, tok: StravaToken, reply: Reply, now: Instant)
    requires UniqueStravaIds(acts)
    ensures UniqueStravaIds(SyncOne(acts, tok, reply, now).activities)
  {
    var s := SyncOne(acts, tok, reply, now);
    if s.outcome.Appended? {
      AppendKeepsUnique(acts, s.outcome.record);
    } else {
      assert s.activities == acts;
    }
  }

  /** The whole loop: every credential in order, each against the store the
      previous ones left. */
  function Run(acts: seq<Activity>, toks: seq<StravaToken>, replies: seq<Reply>, now: Instant): (r: RunResult)
    requires |replies| == |toks|
    ensures |r.tokens| == |toks| && |r.outcomes| == |toks|
    ensures acts <= r.activities && |r.activities| <= |acts| + |toks|
    decreases |toks|
  {
    if |toks| == 0 then RunResult(acts, [], [], [])
    else
      var s := SyncOne(acts, toks[0], replies[0], now);
      var rest := Run(s.activities, toks[1..], replies[1..], now);
      RunResult(rest.activities, [s.token] + rest.tokens, [s.outcome] + rest.outcomes, s.calls + rest.calls)
  }

  /** A run changes no credential's owner or Strava athlete. */
  lemma {:induction false} RunKeepsOwners(acts: seq<Activity>, toks: seq<StravaToken>, replies: seq<Reply>, now: Instant)
    requires |replies| == |toks|
    ensures var r := Run(acts, toks, replies, now);
      forall k :: 0 <= k < |toks| ==> SameOwner(r.tokens[k], toks[k])
    decreases |toks|
  {
    if |toks| > 0 {
      var s := SyncOne(acts, toks[0], replies[0], now);
      var r := Run(acts, toks, replies, now);
      RunKeepsOwners(s.activities, toks[1..], replies[1..], now);
      forall k | 0 <= k < |toks| ensures SameOwner(r.tokens[k], toks[k]) {
        if k > 0 {
          assert r.tokens[k] == Run(s.activities, toks[1..], replies[1..], now).tokens[k - 1];
          assert toks[k] == toks[1..][k - 1];
        }
      }
    }
  }

  /** A run keeps the store's Strava ids unique. */
  lemma {:induction false} RunKeepsUnique(acts: seq<Activity>, toks: seq<StravaToken>, replies: seq<Reply>, now: Instant)
    requires |replies| == |toks| && UniqueStravaIds(acts)
    ensures UniqueStravaIds(Run(acts, toks, replies, now).activities)
    decreases |toks|
  {
    if |toks| > 0 {
      var s := SyncOne(acts, toks[0], replies[0], now);
      SyncOneKeepsUnique(acts, toks[0], replies[0], now);
      RunKeepsUnique(s.activities, toks[1..], replies[1..], now);
    }
  }

  /** Owners are untouched, so the credential table stays valid. */
  lemma SameOwnersKeepValid(toks: seq<StravaToken>, toks': seq<StravaToken>)
    requires ValidTokens(toks) && |toks'| == |toks|
    requires forall k :: 0 <= k < |toks| ==> SameOwner(toks'[k], toks[k])
    ensures ValidTokens(toks')
  {
  }

  // ---------------------------------------------------------------------
  // Token refresh

  /** A token that has not expired is used as it is: no refresh request,
      one fetch with the stored access token, and the credential unchanged. */
  lemma UnexpiredTokenUsedAsIs(acts: seq<Activity>, tok: StravaToken, reply: Reply, now: Instant)
    requires !Expired(tok, now)
    ensures var s := SyncOne(acts, tok, reply, now);
      s.token == tok && s.calls == [FetchCall(tok.accessToken)]
  {
  }

  /** A refresh request is sent exactly when `now >= expires_at`, and then
      it is the first request, carrying the stored refresh token. */
  lemma RefreshIffExpired(acts: seq<Activity>, tok: StravaToken, reply: Reply, now: Instant)
    ensures var s := SyncOne(acts, tok, reply, now);
      (exists k :: 0 <= k < |s.calls| && s.calls[k].RefreshCall?) <==> Expired(tok, now)
    ensures Expired(tok, now) ==> SyncOne(acts, tok, reply, now).calls[0] == RefreshCall(tok.refreshToken)
  {
    var s := SyncOne(acts, tok, reply, now);
    if Expired(tok, now) {
      assert s.calls[0].RefreshCall?;
    }
  }

  /** After a successful refresh both tokens are overwritten with the reply's,
      the expiry is `now + expires_in` (21600 s when absent), and the fetch
      carries the new access token. */
  lemma SuccessfulRefreshRenewsToken(acts: seq<Activity>, tok: StravaToken, reply: Reply, now: Instant)
    requires Expired(tok, now) && reply.refresh.status == 200
    ensures var s := SyncOne(acts, tok, reply, now);
      s.token.accessToken == reply.refresh.accessToken &&
      s.token.refreshToken == reply.refresh.refreshToken &&
      s.token.expiresAt == now.seconds + (if reply.refresh.expiresIn.Some? then reply.refresh.expiresIn.value else 21600) &&
      SameOwner(s.token, tok) &&
      s.calls == [RefreshCall(tok.refreshToken), FetchCall(reply.refresh.accessToken)]
  {
  }

  /** A rejected refresh ends the credential's turn: nothing is fetched,
      stored or changed. */
  lemma FailedRefreshSkipsCredential(acts: seq<Activity>, tok: StravaToken, reply: Reply, now: Instant)
    requires Expired(tok, now) && reply.refresh.status != 200
    ensures var s := SyncOne(acts, tok, reply, now);
      s.calls == [RefreshCall(tok.refreshToken)] && s.activities == acts &&
      s.token == tok && s.outcome == RefreshFailed
  {
  }

  // ---------------------------------------------------------------------
  // Ingestion

  /** The token the fetch was sent with, when the credential got that far. */
  function TokenUsed(tok: StravaToken, reply: Reply, now: Instant): StravaToken {
    if Expired(tok, now) then Renewed(tok, reply.refresh, now) else tok
  }

  /** What happens to the fetched list: a failed or empty reply stores
      nothing; a stored Strava id stores nothing; 100 m or less stores
      nothing; otherwise exactly the new record is appended. */
  lemma IngestRules(acts: seq<Activity>, tok: StravaToken, reply: Reply, now: Instant)
    requires !(Expired(tok, now) && reply.refresh.status != 200)
    ensures var s := SyncOne(acts, tok, reply, now);
      var f := reply.fetch;
      (f.status != 200 || |f.items| == 0 ==> s.outcome == FetchFailed && s.activities == acts) &&
      (f.status == 200 && |f.items| > 0 ==>
         var item := f.items[0];
         var id := Format.Digits(item.id);
         (StoredId(acts, id) ==> s.outcome == AlreadyStored && s.activities == acts) &&
         (!StoredId(acts, id) && item.distanceMetres <= 100 ==> s.outcome == TooShort && s.activities == acts) &&
         (!StoredId(acts, id) && item.distanceMetres > 100 ==>
            s.activities == acts + [NewRecord(acts, TokenUsed(tok, reply, now), item, now)]))
  {
  }

  /** Nothing is stored unless the distance exceeds 100 m. */
  lemma StoredOnlyAbove100m(acts: seq<Activity>, tok: StravaToken, reply: Reply, now: Instant)
    requires SyncOne(acts, tok, reply, now).outcome.Appended?
    ensures reply.fetch.status == 200 && |reply.fetch.items| > 0 && reply.fetch.items[0].distanceMetres > 100
  {
  }

  /** The fields of a new record: Strava's id as text, `bike` exactly for a
      "Ride", the credential owner's first name, the date of `now`, the
      distance in hundredths of a km rounded to the nearest, and the pace. */
  lemma NewRecordFields(acts: seq<Activity>, tok: StravaToken, item: RemoteActivity, now: Instant)
    requires item.distanceMetres > 100
    ensures var a := NewRecord(acts, tok, item, now);
      a.stravaId == Some(Format.Digits(item.id)) &&
      (a.kind == Bike <==> item.activityType == Some("Ride")) &&
      a.athlete == tok.firstName && a.sent == now.date &&
      2 * Rounding.Abs(item.distanceMetres - 10 * a.centiKm) <= 10 &&
      a.pace == Some(PaceText(item.movingTime, item.distanceMetres)) &&
      Format.ParseClock(a.pace.value) ==
        Some((PaceSeconds(item.movingTime, item.distanceMetres) / 60, PaceSeconds(item.movingTime, item.distanceMetres) % 60))
  {
    var p := PaceSeconds(item.movingTime, item.distanceMetres);
    Format.ClockRoundTrip(p / 60, p % 60);
    var a := NewRecord(acts, tok, item, now);
    assert item.distanceMetres - a.centiKm * 10 == item.distanceMetres - 10 * a.centiKm;
  }

  /** Division facts for the pace: p whole seconds per km, rounded down. */
  lemma PaceBounds(movingTime: nat, metres: nat)
    requires metres > 0
    ensures var p := PaceSeconds(movingTime, metres);
      p * metres <= 1000 * movingTime < p * metres + metres
  {
    var n := 1000 * movingTime;
    var p, r := n / metres, n % metres;
    assert n == p * metres + r && 0 <= r < metres;
  }

  /** The pace "MM:SS" reads back as whole minutes and a seconds part below
      60 that together make the per-km time rounded down. */
  lemma PaceIsMinutesAndSeconds(movingTime: nat, metres: nat)
    requires metres > 0
    ensures var r := Format.ParseClock(PaceText(movingTime, metres));
      r.Some? && r.value.1 < 60 && r.value.0 * 60 + r.value.1 == PaceSeconds(movingTime, metres)
  {
    SecondsAsClock(PaceSeconds(movingTime, metres));
  }

  /** A number of seconds written as "MM:SS" reads back as minutes and
      seconds below 60 that add up to it. */
  lemma SecondsAsClock(p: nat)
    ensures var r := Format.ParseClock(Format.ClockText(p / 60, p % 60));
      r == Some((p / 60, p % 60)) && r.value.1 < 60 && r.value.0 * 60 + r.value.1 == p
  {
    Format.ClockRoundTrip(p / 60, p % 60);
  }

  /** The integer pace is what the source's real-valued `p // 60` and
      `p % 60` give for `p = moving_time / (distance / 1000)`. */
  lemma PaceMatchesRealArithmetic(movingTime: nat, metres: nat)
    requires metres > 0
    ensures var p: real := (1000 * movingTime) as real / metres as real;
      var m := (p / 60.0).Floor;
      m == PaceSeconds(movingTime, metres) / 60 &&
      (p - 60.0 * m as real).Floor == PaceSeconds(movingTime, metres) % 60
  {
    var f := PaceSeconds(movingTime, metres);
    var p: real := (1000 * movingTime) as real / metres as real;
    PaceBounds(movingTime, metres);
    RealQuotientBounds(1000 * movingTime, metres, f);
    var q, r := f / 60, f % 60;
    FloorSplit(p, f, q, r);
  }

  /** An integer quotient bracketed by f and f + 1 gives the same bracket over reals. */
  lemma RealQuotientBounds(n: int, d: int, f: int)
    requires d > 0 && f * d <= n < f * d + d
    ensures f as real <= n as real / d as real < f as real + 1.0
  {
    var x, dr := n as real / d as real, d as real;
    assert x * dr == n as real;
    assert (f * d) as real == f as real * dr;
    assert (f * d + d) as real == (f as real + 1.0) * dr;
    if x < f as real {
      ScaleLessEq(x, f as real, dr);
      assert false;
    }
    if x >= f as real + 1.0 {
      ScaleLessEq(f as real + 1.0, x, dr);
      assert false;
    }
  }

  lemma ScaleLessEq(a: real, b: real, c: real)
    requires c > 0.0 && a <= b
    ensures a * c <= b * c
  {
    assert b * c - a * c == (b - a) * c;
  }

  lemma FloorSplit(p: real, f: int, q: int, r: int)
    requires f as real <= p < f as real + 1.0
    requires f == 60 * q + r && 0 <= r < 60
    ensures (p / 60.0).Floor == q
    ensures (p - 60.0 * q as real).Floor == r
  {
    assert q as real <= p / 60.0 < q as real + 1.0;
    assert r as real <= p - 60.0 * q as real < r as real + 1.0;
  }

  /** 330 s over one kilometre is stored as "05:30". */
  lemma PaceExample()
    ensures PaceText(330, 1000) == "05:30"
  {
    assert PaceSeconds(330, 1000) == 330;
    assert Format.Digits(5) == "5" && Format.Digits(30) == "30";
  }

  /** The pace fits the five characters the `pace` column declares exactly
      when it is below 100 minutes per km. */
  lemma PaceFitsColumnIff(movingTime: nat, metres: nat)
    requires metres > 0
    ensures |PaceText(movingTime, metres)| <= 5 <==> PaceSeconds(movingTime, metres) < 6000
  {
    var p := PaceSeconds(movingTime, metres);
    Format.ClockLength(p / 60, p % 60);
    Format.PadTwoLength(p / 60);
    Format.PadTwoLength(p % 60);
  }

  /** A 25-minute walk of 101 m is synced with the six-character pace
      "247:31". */
  lemma PaceCanOverflowColumn()
    ensures PaceText(1500, 101) == "247:31" && |PaceText(1500, 101)| == 6
  {
    assert PaceSeconds(1500, 101) == 14851;
    assert Format.Digits(247) == "247" && Format.Digits(31) == "31";
  }

  /** Record k is the athlete's first stored record that has an avatar. */
  predicate FirstWithAvatar(acts: seq<Activity>, name: string, k: int) {
    0 <= k < |acts| && acts[k].athlete == name && acts[k].avatarUrl.Some? &&
    forall j :: 0 <= j < k ==> !(acts[j].athlete == name && acts[j].avatarUrl.Some?)
  }

  /** The avatar is the one of the athlete's first stored record that has
      an avatar, and the default picture when there is none. */
  lemma AvatarRule(acts: seq<Activity>, tok: StravaToken, item: RemoteActivity, now: Instant)
    ensures var a := NewRecord(acts, tok, item, now);
      ((forall k :: 0 <= k < |acts| && acts[k].athlete == tok.firstName ==> acts[k].avatarUrl.None?) ==>
         a.avatarUrl == Some(DefaultAvatar)) &&
      (forall k :: FirstWithAvatar(acts, tok.firstName, k) ==> a.avatarUrl == acts[k].avatarUrl)
  {
    var name := tok.firstName;
    var r := FirstAvatar(acts, name);
    forall k | FirstWithAvatar(acts, name, k)
      ensures r == acts[k].avatarUrl
    {
      var k' :| FirstWithAvatar(acts, name, k') && acts[k'].avatarUrl == r;
      if k' != k {
        assert false;
      }
    }
  }

  // ---------------------------------------------------------------------
  // Deduplication

  /** Once a sync stored an activity, syncing the same remote activity again,
      with whatever credential state and at whatever time, adds nothing, and
      the store holds exactly one record with its id. */
  lemma SecondSyncOfSameActivityIsNoOp(acts: seq<Activity>, tok: StravaToken, reply: Reply, now: Instant,
                                       tok2: StravaToken, reply2: Reply, now2: Instant)
    requires UniqueStravaIds(acts)
    requires SyncOne(acts, tok, reply, now).outcome.Appended?
    requires reply2.fetch == reply.fetch
    ensures var s1 := SyncOne(acts, tok, reply, now);
      SyncOne(s1.activities, tok2, reply2, now2).activities == s1.activities &&
      CountWithId(s1.activities, s1.outcome.record.stravaId.value) == 1
  {
    var s1 := SyncOne(acts, tok, reply, now);
    var id := s1.outcome.record.stravaId.value;
    var n := |acts|;
    assert s1.activities[n] == s1.outcome.record;
    assert StoredId(s1.activities, id);
    assert id == Format.Digits(reply.fetch.items[0].id);
    SyncOneKeepsUnique(acts, tok, reply, now);
    UniqueMeansAtMostOne(s1.activities, id);
  }

  /** Every Strava id stored in `a` is also stored in `b`. */
  ghost predicate IdsIncluded(a: seq<Activity>, b: seq<Activity>) {
    forall k :: 0 <= k < |a| && a[k].stravaId.Some? ==> StoredId(b, a[k].stravaId.value)
  }

  /** After a step, repeating it later against any store that holds at least
      the step's ids adds nothing. */
  lemma StepIsSettled(acts: seq<Activity>, tok: StravaToken, reply: Reply, now1: Instant, now2: Instant,
                      store: seq<Activity>)
    requires now1.seconds <= now2.seconds
    requires IdsIncluded(SyncOne(acts, tok, reply, now1).activities, store)
    ensures SyncOne(store, SyncOne(acts, tok, reply, now1).token, reply, now2).activities == store
  {
    var s := SyncOne(acts, tok, reply, now1);
    var f := reply.fetch;
    if f.status == 200 && |f.items| > 0 {
      var id := Format.Digits(f.items[0].id);
      if StoredId(acts, id) {
        var k :| 0 <= k < |acts| && acts[k].stravaId == Some(id);
        assert s.activities[k] == acts[k];
      } else if s.outcome.Appended? {
        assert s.activities[|acts|] == s.outcome.record;
      }
    }
  }

  lemma {:induction false} RunThenSettled(acts: seq<Activity>, toks: seq<StravaToken>, replies: seq<Reply>,
                                          now1: Instant, now2: Instant, store: seq<Activity>)
    requires |replies| == |toks| && now1.seconds <= now2.seconds
    requires IdsIncluded(Run(acts, toks, replies, now1).activities, store)
    ensures Run(store, Run(acts, toks, replies, now1).tokens, replies, now2).activities == store
    decreases |toks|
  {
    if |toks| > 0 {
      var s := SyncOne(acts, toks[0], replies[0], now1);
      var rest := Run(s.activities, toks[1..], replies[1..], now1);
      var r1 := Run(acts, toks, replies, now1);
      assert IdsIncluded(s.activities, store) by {
        forall k | 0 <= k < |s.activities| && s.activities[k].stravaId.Some?
          ensures StoredId(store, s.activities[k].stravaId.value)
        {
          assert rest.activities[k] == s.activities[k];
        }
      }
      StepIsSettled(acts, toks[0], replies[0], now1, now2, store);
      RunThenSettled(s.activities, toks[1..], replies[1..], now1, now2, store);
      assert r1.tokens[1..] == rest.tokens;
    }
  }

  /** Running the whole sync a second time, no earlier than the first, with
      Strava answering the same, stores nothing more. */
  lemma SecondRunStoresNothing(acts: seq<Activity>, toks: seq<StravaToken>, replies: seq<Reply>,
                               now1: Instant, now2: Instant)
    requires |replies| == |toks| && now1.seconds <= now2.seconds
    ensures var r1 := Run(acts, toks, replies, now1);
      Run(r1.activities, r1.tokens, replies, now2).activities == r1.activities
  {
    var r1 := Run(acts, toks, replies, now1);
    assert IdsIncluded(r1.activities, r1.activities) by {
      forall k | 0 <= k < |r1.activities| && r1.activities[k].stravaId.Some?
        ensures StoredId(r1.activities, r1.activities[k].stravaId.value)
      {
      }
    }
    RunThenSettled(acts, toks, replies, now1, now2, r1.activities);
  }

  // ---------------------------------------------------------------------
  // Fault isolation

  function Without<T>(s: seq<T>, k: nat): seq<T>
    requires k < |s|
  {
    s[..k] + s[k + 1..]
  }

  lemma RejectedFirstIsIsolated(acts: seq<Activity>, toks: seq<StravaToken>, replies: seq<Reply>, now: Instant)
    requires |replies| == |toks| && 0 < |toks|
    requires Expired(toks[0], now) && replies[0].refresh.status != 200
    ensures var full := Run(acts, toks, replies, now);
      var rest := Run(acts, toks[1..], replies[1..], now);
      full.activities == rest.activities && full.outcomes == [RefreshFailed] + rest.outcomes &&
      full.tokens[0] == toks[0]
  {
    FailedRefreshSkipsCredential(acts, toks[0], replies[0], now);
  }

  /** A credential whose refresh is rejected does not disturb the others:
      the run stores exactly what it would store without that credential,
      every other credential has the same outcome, and the rejected
      credential is left as it was. */
  lemma {:induction false} RejectedRefreshIsIsolated(acts: seq<Activity>, toks: seq<StravaToken>, replies: seq<Reply>,
                                                     now: Instant, k: nat)
    requires |replies| == |toks| && k < |toks|
    requires Expired(toks[k], now) && replies[k].refresh.status != 200
    ensures var full := Run(acts, toks, replies, now);
      var rest := Run(acts, Without(toks, k), Without(replies, k), now);
      full.activities == rest.activities &&
      full.outcomes == rest.outcomes[..k] + [RefreshFailed] + rest.outcomes[k..] &&
      full.tokens[k] == toks[k]
    decreases k
  {
    if k == 0 {
      RejectedFirstIsIsolated(acts, toks, replies, now);
      assert Without(toks, 0) == toks[1..] && Without(replies, 0) == replies[1..];
    } else {
      var s := SyncOne(acts, toks[0], replies[0], now);
      var toks', replies' := Without(toks, k), Without(replies, k);
      WithoutAfterHead(toks, k);
      WithoutAfterHead(replies, k);
      RejectedRefreshIsIsolated(s.activities, toks[1..], replies[1..], now, k - 1);
      RunUnfold(acts, toks, replies, now);
      RunUnfold(acts, toks', replies', now);
      var tailRest := Run(s.activities, toks'[1..], replies'[1..], now);
      SpliceAfterHead(s.outcome, tailRest.outcomes, RefreshFailed, k);
    }
  }

  /** Removing a later element keeps the head and removes it from the tail. */
  lemma WithoutAfterHead<T>(s: seq<T>, k: nat)
    requires 0 < k < |s|
    ensures Without(s, k)[0] == s[0] && Without(s, k)[1..] == Without(s[1..], k - 1)
  {
    assert Without(s, k)[1..] == s[1..k] + s[k + 1..];
  }

  lemma SpliceAfterHead<T>(x: T, o: seq<T>, y: T, k: nat)
    requires 1 <= k <= |o| + 1
    ensures ([x] + o)[..k] + [y] + ([x] + o)[k..] == [x] + (o[..k - 1] + [y] + o[k - 1..])
  {
    assert ([x] + o)[..k] == [x] + o[..k - 1];
    assert ([x] + o)[k..] == o[k - 1..];
  }

  // ---------------------------------------------------------------------
  // The command

  /** The state the command works on: the activity store and the
      credential table. */
  class SyncCommand {
    var activities: seq<Activity>
    var tokens: seq<StravaToken>

    ghost predicate Valid()
      reads this
    {
      UniqueStravaIds(activities) && ValidTokens(tokens)
    }

    constructor (acts: seq<Activity>, toks: seq<StravaToken>)
      requires UniqueStravaIds(acts) && ValidTokens(toks)
      ensures Valid() && activities == acts && tokens == toks
    {
      activities := acts;
      tokens := toks;
    }

    /** The second half of the loop body: look at the fetched list and
        store its newest activity when it is new and longer than 100 m. */
    method IngestLatest(tok: StravaToken, actRes: FetchReply, now: Instant) returns (outcome: Outcome)
      requires Valid()
      modifies this`activities
      ensures Valid()
      ensures (activities, outcome) == Ingest(old(activities), tok, actRes, now)
    {
      IngestKeepsUnique(activities, tok, actRes, now);
      if actRes.status == 200 && |actRes.items| > 0 {
        var atividade := actRes.items[0];
        var actStravaId := Format.Digits(atividade.id);
        if !StoredId(activities, actStravaId) {
          var kind := Corrida;
          if atividade.activityType == Some("Ride") {
            kind := Bike;
          }
          if atividade.distanceMetres > 100 {
            var paceText := "";
            if atividade.distanceMetres > 0 {
              var p := PaceSeconds(atividade.movingTime, atividade.distanceMetres);
              paceText := Format.ClockText(p / 60, p % 60);
            }
            var name := tok.firstName;
            var avatar := DefaultAvatar;
            var last := FirstAvatar(activities, name);
            if last.Some? {
              avatar := last.value;
            }
            var record := Activity(name, kind, KmHundredths(atividade.distanceMetres), Some(paceText),
                                   now.date, Some(actStravaId), Some(avatar));
            activities := activities + [record];
            outcome := Appended(record);
          } else {
            outcome := TooShort;
          }
        } else {
          outcome := AlreadyStored;
        }
      } else {
        outcome := FetchFailed;
      }
    }

    /** The loop body for credential i: renew its token when it has
        expired (giving up on this credential when Strava refuses), then
        fetch and ingest the newest activity. Returns the outcome and the
        requests sent. */
    method SyncCredential(i: nat, reply: Reply, now: Instant) returns (outcome: Outcome, sent: seq<Call>)
      requires Valid() && i < |tokens|
      modifies this
      ensures Valid()
      ensures var s := SyncOne(old(activities), old(tokens)[i], reply, now);
        activities == s.activities && tokens == old(tokens)[i := s.token] &&
        outcome == s.outcome && sent == s.calls
    {
      var tok := tokens[i];
      var accessToken := tok.accessToken;
      sent := [];
      if now.seconds >= tok.expiresAt {
        var res := reply.refresh;
        sent := sent + [RefreshCall(tok.refreshToken)];
        if res.status == 200 {
          accessToken := res.accessToken;
          tok := tok.(accessToken := accessToken, refreshToken := res.refreshToken,
                      expiresAt := now.seconds + ExpiresIn(res));
          SameOwnersKeepValid(old(tokens), tokens[i := tok]);
          tokens := tokens[i := tok];
        } else {
          outcome := RefreshFailed;
          return;
        }
      }
      var actRes := reply.fetch;
      sent := sent + [FetchCall(accessToken)];
      outcome := IngestLatest(tok, actRes, now);
      SyncOneFetches(old(activities), old(tokens)[i], reply, now);
    }

    /** `handle`: one pass over all stored credentials, in table order. */
    method Handle(replies: seq<Reply>, now: Instant) returns (outcomes: seq<Outcome>, calls: seq<Call>)
      requires Valid() && |replies| == |tokens|
      modifies this
      ensures Valid()
      ensures var r := Run(old(activities), old(tokens), replies, now);
        activities == r.activities && tokens == r.tokens && outcomes == r.outcomes && calls == r.calls
    {
      outcomes, calls := [], [];
      if |tokens| == 0 {
        assert Run(activities, tokens, replies, now) == RunResult(activities, [], [], []);
        return;
      }
      ghost var final := Run(activities, tokens, replies, now);
      RunKeepsOwners(activities, tokens, replies, now);
      SameOwnersKeepValid(tokens, final.tokens);
      RunKeepsUnique(activities, tokens, replies, now);
      var i := 0;
      while i < |tokens|
        invariant 0 <= i <= |tokens| == |replies|
        invariant Remaining(activities, tokens, replies, now, i, outcomes, calls, final)
        invariant Valid()
      {
        ghost var acts0, toks0, outcomes0, calls0 := activities, tokens, outcomes, calls;
        var outcome, sent := SyncCredential(i, replies[i], now);
        outcomes, calls := outcomes + [outcome], calls + sent;
        RemainingAdvances(acts0, toks0, replies, now, i, outcomes0, calls0, final);
        i := i + 1;
      }
      assert tokens[i..] == [] && replies[i..] == [] && tokens[..i] == tokens;
      assert Run(activities, [], [], now) == RunResult(activities, [], [], []);
      assert activities == final.activities;
      assert tokens == final.tokens;
      assert ValidTokens(tokens);
      assert UniqueStravaIds(activities);
    }
  }

  /** The requests sent for a credential whose turn reaches the fetch. */
  function FetchCalls(tok: StravaToken, reply: Reply, now: Instant): seq<Call> {
    if Expired(tok, now) then [RefreshCall(tok.refreshToken), FetchCall(reply.refresh.accessToken)]
    else [FetchCall(tok.accessToken)]
  }

  /** A step that gets past the refresh fetches with the token in use. */
  lemma SyncOneFetches(acts: seq<Activity>, tok: StravaToken, reply: Reply, now: Instant)
    requires !(Expired(tok, now) && reply.refresh.status != 200)
    ensures var used := TokenUsed(tok, reply, now);
      var ingested := Ingest(acts, used, reply.fetch, now);
      SyncOne(acts, tok, reply, now) == Step(ingested.0, used, FetchCalls(tok, reply, now), ingested.1)
  {
  }

  /** The loop invariant of `Handle`: what is left to do, run from the
      current state, completes the whole run. */
  ghost predicate Remaining(acts: seq<Activity>, toks: seq<StravaToken>, replies: seq<Reply>, now: Instant,
                            i: nat, outcomes: seq<Outcome>, calls: seq<Call>, final: RunResult)
    requires i <= |toks| == |replies|
  {
    var rest := Run(acts, toks[i..], replies[i..], now);
    rest.activities == final.activities && toks[..i] + rest.tokens == final.tokens &&
    outcomes + rest.outcomes == final.outcomes && calls + rest.calls == final.calls
  }

  /** Doing credential i's step moves the invariant from i to i + 1. */
  lemma RemainingAdvances(acts: seq<Activity>, toks: seq<StravaToken>, replies: seq<Reply>, now: Instant,
                          i: nat, outcomes: seq<Outcome>, calls: seq<Call>, final: RunResult)
    requires i < |toks| == |replies|
    requires Remaining(acts, toks, replies, now, i, outcomes, calls, final)
    ensures var s := SyncOne(acts, toks[i], replies[i], now);
      Remaining(s.activities, toks[i := s.token], replies, now, i + 1, outcomes + [s.outcome], calls + s.calls, final)
  {
    var s := SyncOne(acts, toks[i], replies[i], now);
    var toks' := toks[i := s.token];
    var rest := Run(acts, toks[i..], replies[i..], now);
    var tail := Run(s.activities, toks[i + 1..], replies[i + 1..], now);
    RunUnfoldAt(acts, toks, replies, now, i);
    assert toks'[i + 1..] == toks[i + 1..];
    assert toks'[..i + 1] == toks[..i] + [s.token];
    SpliceParts(toks[..i], s.token, tail.tokens);
    SpliceParts(outcomes, s.outcome, tail.outcomes);
    assert (calls + s.calls) + tail.calls == calls + (s.calls + tail.calls);
  }

  lemma SpliceParts<T>(a: seq<T>, x: T, b: seq<T>)
    ensures (a + [x]) + b == a + ([x] + b)
  {
  }

  /** The run from position i is credential i's step followed by the run
      from i + 1. */
  lemma RunUnfoldAt(acts: seq<Activity>, toks: seq<StravaToken>, replies: seq<Reply>, now: Instant, i: nat)
    requires i < |toks| == |replies|
    ensures var s := SyncOne(acts, toks[i], replies[i], now);
      var tail := Run(s.activities, toks[i + 1..], replies[i + 1..], now);
      Run(acts, toks[i..], replies[i..], now) ==
        RunResult(tail.activities, [s.token] + tail.tokens, [s.outcome] + tail.outcomes, s.calls + tail.calls)
  {
    RunUnfold(acts, toks[i..], replies[i..], now);
    assert toks[i..][0] == toks[i] && replies[i..][0] == replies[i];
    assert toks[i..][1..] == toks[i + 1..] && replies[i..][1..] == replies[i + 1..];
  }

  /** One unfolding of the run. */
  lemma RunUnfold(acts: seq<Activity>, toks: seq<StravaToken>, replies: seq<Reply>, now: Instant)
    requires |replies| == |toks| > 0
    ensures var s := SyncOne(acts, toks[0], replies[0], now);
      var rest := Run(s.activities, toks[1..], replies[1..], now);
      Run(acts, toks, replies, now) ==
        RunResult(rest.activities, [s.token] + rest.tokens, [s.outcome] + rest.outcomes, s.calls + rest.calls)
  {
  }
}
