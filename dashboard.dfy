/** The dashboard view (core/views.py, `dashboard`) as functions of the
    stored goals and activities and of today's date: the month's goal, the
    "tank" total and its fill percentage, and the athletes' ranking.
    Kilometres are hundredths of a km, percentages hundredths of a percent. */
module Dashboard {
  import opened Wrappers
  import opened Models
  import Rounding
  import Sync

  /** Goal used when no goal is stored for the month: 1000 km. */
  const DefaultGoalCentiKm: int := 100000

  /** A full tank: 100.00 %. */
  const FullTank: int := 10000

  datatype DashboardError = DivisionByZeroGoal

  // ---------------------------------------------------------------------
  // Goal

  predicate GoalFor(g: Goal, today: Date) {
    g.month == today.month && g.year == today.year
  }

  /** `MetaMensal.objects.filter(mes=..., ano=...).first()`: the position of
      the first goal stored for today's month and year. */
  function FindGoal(goals: seq<Goal>, today: Date): (r: Option<nat>)
    ensures r.Some? ==> r.value < |goals| && GoalFor(goals[r.value], today) &&
                        forall j :: 0 <= j < r.value ==> !GoalFor(goals[j], today)
    ensures r.None? ==> forall j :: 0 <= j < |goals| ==> !GoalFor(goals[j], today)
  {
    if |goals| == 0 then None
    else if GoalFor(goals[0], today) then Some(0)
    else match FindGoal(goals[1..], today)
      case None => None
      case Some(k) => Some(k + 1)
  }

  function GoalValue(goals: seq<Goal>, today: Date): int {
    match FindGoal(goals, today)
    case Some(k) => goals[k].targetCentiKm
    case None => DefaultGoalCentiKm
  }

  /** The goal is that of the first goal stored for the month and year, and
      1000 km when there is none. */
  lemma GoalValueRule(goals: seq<Goal>, today: Date)
    ensures (forall j :: 0 <= j < |goals| ==> !GoalFor(goals[j], today)) ==>
              GoalValue(goals, today) == DefaultGoalCentiKm
    ensures forall k :: 0 <= k < |goals| && GoalFor(goals[k], today) &&
                        (forall j :: 0 <= j < k ==> !GoalFor(goals[j], today)) ==>
              GoalValue(goals, today) == goals[k].targetCentiKm
  {
    var r := FindGoal(goals, today);
    forall k | 0 <= k < |goals| && GoalFor(goals[k], today) && (forall j :: 0 <= j < k ==> !GoalFor(goals[j], today))
      ensures GoalValue(goals, today) == goals[k].targetCentiKm
    {
      if r.value != k {
        assert false;
      }
    }
  }

  // ---------------------------------------------------------------------
  // Tank

  /** The filter `data_envio__month=..., data_envio__year=...`. */
  predicate InTank(a: Activity, today: Date) {
    a.sent.month == today.month && a.sent.year == today.year
  }

  /** Sum of `quantidade_km` over the month's activities, 0 when there are none. */
  function MonthTotal(acts: seq<Activity>, today: Date): int {
    if |acts| == 0 then 0
    else (if InTank(acts[0], today) then acts[0].centiKm else 0) + MonthTotal(acts[1..], today)
  }

  /** The total of two stores is the sum of their totals. */
  lemma {:induction false} MonthTotalAppend(a: seq<Activity>, b: seq<Activity>, today: Date)
    ensures MonthTotal(a + b, today) == MonthTotal(a, today) + MonthTotal(b, today)
    decreases |a|
  {
    if |a| > 0 {
      assert (a + b)[1..] == a[1..] + b;
      MonthTotalAppend(a[1..], b, today);
    } else {
      assert a + b == b;
    }
  }

  /** With no activity in the month the total is 0. */
  lemma {:induction false} MonthTotalEmptyMonth(acts: seq<Activity>, today: Date)
    requires forall k :: 0 <= k < |acts| ==> !InTank(acts[k], today)
    ensures MonthTotal(acts, today) == 0
    decreases |acts|
  {
    if |acts| > 0 {
      assert forall k :: 0 <= k < |acts[1..]| ==> acts[1..][k] == acts[k + 1];
      MonthTotalEmptyMonth(acts[1..], today);
    }
  }

  /** Activities outside the month do not change the total; one inside adds
      exactly its kilometres. */
  lemma MonthTotalAddOne(acts: seq<Activity>, a: Activity, today: Date)
    ensures MonthTotal(acts + [a], today) == MonthTotal(acts, today) + (if InTank(a, today) then a.centiKm else 0)
  {
    MonthTotalAppend(acts, [a], today);
  }

  /** A record the Strava sync stores fills the tank of the month it runs
      in by exactly the record's kilometres. */
  lemma SyncedRecordFillsTank(acts: seq<Activity>, tok: StravaToken, reply: Sync.Reply, now: Sync.Instant)
    requires Sync.SyncOne(acts, tok, reply, now).outcome.Appended?
    ensures var s := Sync.SyncOne(acts, tok, reply, now);
      MonthTotal(s.activities, now.date) == MonthTotal(acts, now.date) + s.outcome.record.centiKm
  {
    var s := Sync.SyncOne(acts, tok, reply, now);
    assert s.outcome.record.sent == now.date;
    MonthTotalAddOne(acts, s.outcome.record, now.date);
  }

  /** `round(total / goal * 100, 2)` capped at 100; a zero goal is a
      division by zero. */
  function Percentage(total: int, goal: int): (r: Result<int, DashboardError>)
    ensures r.Err? <==> goal == 0
    ensures r.Ok? ==> r.value <= FullTank
  {
    if goal == 0 then Err(DivisionByZeroGoal)
    else
      var p := Rounding.RoundHalfEven(total * 10000, goal);
      Ok(if p > FullTank then FullTank else p)
  }

  /** Below the cap the percentage is the share total/goal rounded to the
      nearest hundredth of a percent (ties to even). The tank shows full
      exactly when that share is at least 99.995 %, so in particular when
      the goal is reached. */
  lemma PercentageIsRoundedShareCapped(total: int, goal: int)
    requires goal != 0
    ensures var v := Percentage(total, goal).value;
      v <= FullTank &&
      (v < FullTank ==> 2 * Rounding.Abs(total * 10000 - v * goal) <= Rounding.Abs(goal) &&
                        (2 * Rounding.Abs(total * 10000 - v * goal) == Rounding.Abs(goal) ==> v % 2 == 0)) &&
      (goal > 0 ==> (v == FullTank <==> 2 * (total * 10000) >= 19999 * goal)) &&
      (goal < 0 ==> (v == FullTank <==> 2 * (total * 10000) <= 19999 * goal)) &&
      (goal > 0 && total >= goal ==> v == FullTank)
  {
    Rounding.RoundReachesIff(total * 10000, goal, FullTank);
    if goal > 0 && total >= goal {
      assert total * 10000 >= FullTank * goal;
      Rounding.RoundAtLeast(total * 10000, goal, FullTank);
    }
  }

  // ---------------------------------------------------------------------
  // Ranking

  /** One row of `values('nome_usuario').annotate(total=Sum('quantidade_km'))`. */
  datatype Standing = Standing(athlete: string, total: int)

  /** An activity as the ranking sees it: its athlete and kilometres. */
  datatype Entry = Entry(athlete: string, centiKm: int)

  /** The filter `data_envio__month=month` (the month only, of any year). */
  function MonthEntries(acts: seq<Activity>, month: Month): seq<Entry> {
    if |acts| == 0 then []
    else if acts[0].sent.month == month then
      [Entry(acts[0].athlete, acts[0].centiKm)] + MonthEntries(acts[1..], month)
    else MonthEntries(acts[1..], month)
  }

  /** The athlete has an activity in the month, of any year. */
  predicate ActiveInMonth(acts: seq<Activity>, month: Month, name: string) {
    exists k :: 0 <= k < |acts| && acts[k].athlete == name && acts[k].sent.month == month
  }

  predicate HasEntry(es: seq<Entry>, name: string) {
    exists i :: 0 <= i < |es| && es[i].athlete == name
  }

  /** The month's entries name exactly the athletes active in the month. */
  lemma {:induction false} MonthEntriesAthletes(acts: seq<Activity>, month: Month, name: string)
    ensures HasEntry(MonthEntries(acts, month), name) <==> ActiveInMonth(acts, month, name)
    decreases |acts|
  {
    if |acts| > 0 {
      var rest := MonthEntries(acts[1..], month);
      MonthEntriesAthletes(acts[1..], month, name);
      if ActiveInMonth(acts[1..], month, name) {
        var k :| 0 <= k < |acts[1..]| && acts[1..][k].athlete == name && acts[1..][k].sent.month == month;
        assert acts[k + 1] == acts[1..][k];
      }
      if ActiveInMonth(acts, month, name) {
        var k :| 0 <= k < |acts| && acts[k].athlete == name && acts[k].sent.month == month;
        if k > 0 {
          assert acts[1..][k - 1] == acts[k];
        }
      }
      if acts[0].sent.month == month {
        var es := [Entry(acts[0].athlete, acts[0].centiKm)] + rest;
        if HasEntry(rest, name) {
          var i :| 0 <= i < |rest| && rest[i].athlete == name;
          assert es[i + 1] == rest[i];
        }
        if HasEntry(es, name) {
          var i :| 0 <= i < |es| && es[i].athlete == name;
          if i > 0 {
            assert es[i] == rest[i - 1];
          } else {
            assert acts[0].athlete == name;
          }
        }
        if acts[0].athlete == name {
          assert es[0].athlete == name;
        }
      }
    }
  }

  /** Sum of the kilometres of one athlete's entries. */
  function AthleteTotal(es: seq<Entry>, name: string): int {
    if |es| == 0 then 0
    else (if es[0].athlete == name then es[0].centiKm else 0) + AthleteTotal(es[1..], name)
  }

  predicate DistinctNames(names: seq<string>) {
    forall i, j :: 0 <= i < j < |names| ==> names[i] != names[j]
  }

  /** The athletes that have an entry, each once. */
  function Athletes(es: seq<Entry>): (names: seq<string>)
    ensures DistinctNames(names)
    ensures forall name :: name in names <==> HasEntry(es, name)
  {
    if |es| == 0 then []
    else
      var rest := Athletes(es[1..]);
      assert forall i :: 1 <= i < |es| ==> es[i] == es[1..][i - 1];
      assert forall name :: HasEntry(es, name) <==> es[0].athlete == name || HasEntry(es[1..], name);
      if es[0].athlete in rest then rest
      else
        var names := [es[0].athlete] + rest;
        assert forall i :: 1 <= i < |names| ==> names[i] == rest[i - 1];
        names
  }

  /** One standing per listed name, with that athlete's total. */
  function StandingsOf(names: seq<string>, es: seq<Entry>): (r: seq<Standing>)
    ensures |r| == |names|
    ensures forall i :: 0 <= i < |r| ==> r[i] == Standing(names[i], AthleteTotal(es, names[i]))
  {
    if |names| == 0 then []
    else
      var r := [Standing(names[0], AthleteTotal(es, names[0]))] + StandingsOf(names[1..], es);
      assert forall i :: 1 <= i < |r| ==> names[i] == names[1..][i - 1];
      r
  }

  /** `values('nome_usuario').annotate(total=Sum(...))`: one standing per athlete. */
  function Standings(es: seq<Entry>): seq<Standing> {
    StandingsOf(Athletes(es), es)
  }

  predicate NonIncreasing(s: seq<Standing>) {
    forall i, j :: 0 <= i < j < |s| ==> s[i].total >= s[j].total
  }

  predicate DistinctAthletes(s: seq<Standing>) {
    forall i, j :: 0 <= i < j < |s| ==> s[i].athlete != s[j].athlete
  }

  /** Puts x in front of the first standing with a smaller total. */
  function Insert(x: Standing, s: seq<Standing>): seq<Standing> {
    if |s| == 0 || x.total >= s[0].total then [x] + s
    else [s[0]] + Insert(x, s[1..])
  }

  /** `order_by('-total')`: the standings by non-increasing total. */
  function SortDesc(s: seq<Standing>): seq<Standing> {
    if |s| == 0 then [] else Insert(s[0], SortDesc(s[1..]))
  }

  lemma {:induction false} InsertPermutes(x: Standing, s: seq<Standing>)
    ensures multiset(Insert(x, s)) == multiset(s) + multiset{x}
    decreases |s|
  {
    if |s| > 0 && x.total < s[0].total {
      InsertPermutes(x, s[1..]);
      assert s == [s[0]] + s[1..];
    }
  }

  /** Inserting keeps every total under a common bound. */
  lemma {:induction false} InsertBounded(x: Standing, s: seq<Standing>, b: int)
    requires x.total <= b && forall i :: 0 <= i < |s| ==> s[i].total <= b
    ensures forall i :: 0 <= i < |Insert(x, s)| ==> Insert(x, s)[i].total <= b
    decreases |s|
  {
    if |s| > 0 && x.total < s[0].total {
      InsertBounded(x, s[1..], b);
      var t := Insert(x, s[1..]);
      assert forall i :: 1 <= i < |[s[0]] + t| ==> ([s[0]] + t)[i] == t[i - 1];
    } else {
      assert forall i :: 1 <= i < |[x] + s| ==> ([x] + s)[i] == s[i - 1];
    }
  }

  /** Inserting keeps a name out when neither side has it. */
  lemma {:induction false} InsertAvoids(x: Standing, s: seq<Standing>, name: string)
    requires x.athlete != name && forall i :: 0 <= i < |s| ==> s[i].athlete != name
    ensures forall i :: 0 <= i < |Insert(x, s)| ==> Insert(x, s)[i].athlete != name
    decreases |s|
  {
    if |s| > 0 && x.total < s[0].total {
      InsertAvoids(x, s[1..], name);
      var t := Insert(x, s[1..]);
      assert forall i :: 1 <= i < |[s[0]] + t| ==> ([s[0]] + t)[i] == t[i - 1];
    } else {
      assert forall i :: 1 <= i < |[x] + s| ==> ([x] + s)[i] == s[i - 1];
    }
  }

  lemma {:induction false} InsertKeepsOrder(x: Standing, s: seq<Standing>)
    requires NonIncreasing(s)
    ensures NonIncreasing(Insert(x, s))
    decreases |s|
  {
    if |s| > 0 && x.total < s[0].total {
      var tail := s[1..];
      assert NonIncreasing(tail) by {
        forall i, j | 0 <= i < j < |tail| ensures tail[i].total >= tail[j].total {
          assert tail[i] == s[i + 1] && tail[j] == s[j + 1];
        }
      }
      InsertKeepsOrder(x, tail);
      assert forall i :: 0 <= i < |tail| ==> tail[i].total <= s[0].total by {
        forall i | 0 <= i < |tail| ensures tail[i].total <= s[0].total {
          assert tail[i] == s[i + 1];
        }
      }
      InsertBounded(x, tail, s[0].total);
      var t := Insert(x, tail);
      var r := [s[0]] + t;
      forall i, j | 0 <= i < j < |r| ensures r[i].total >= r[j].total {
        assert r[j] == t[j - 1];
        if i > 0 {
          assert r[i] == t[i - 1];
        }
      }
    } else if |s| > 0 {
      var r := [x] + s;
      forall i, j | 0 <= i < j < |r| ensures r[i].total >= r[j].total {
        assert r[j] == s[j - 1];
        if i > 0 {
          assert r[i] == s[i - 1];
        }
      }
    }
  }

  lemma {:induction false} InsertKeepsDistinct(x: Standing, s: seq<Standing>)
    requires DistinctAthletes(s)
    requires forall i :: 0 <= i < |s| ==> s[i].athlete != x.athlete
    ensures DistinctAthletes(Insert(x, s))
    decreases |s|
  {
    if |s| > 0 && x.total < s[0].total {
      var tail := s[1..];
      assert forall i :: 0 <= i < |tail| ==> tail[i] == s[i + 1];
      InsertKeepsDistinct(x, tail);
      InsertAvoids(x, tail, s[0].athlete);
      var t := Insert(x, tail);
      var r := [s[0]] + t;
      forall i, j | 0 <= i < j < |r| ensures r[i].athlete != r[j].athlete {
        assert r[j] == t[j - 1];
        if i > 0 {
          assert r[i] == t[i - 1];
        }
      }
    } else {
      var r := [x] + s;
      forall i, j | 0 <= i < j < |r| ensures r[i].athlete != r[j].athlete {
        assert r[j] == s[j - 1];
        if i > 0 {
          assert r[i] == s[i - 1];
        }
      }
    }
  }

  /** Sorting only reorders the standings. */
  lemma {:induction false} SortDescPermutes(s: seq<Standing>)
    ensures multiset(SortDesc(s)) == multiset(s)
    decreases |s|
  {
    if |s| > 0 {
      SortDescPermutes(s[1..]);
      InsertPermutes(s[0], SortDesc(s[1..]));
      assert s == [s[0]] + s[1..];
    }
  }

  /** Sorting yields non-increasing totals. */
  lemma {:induction false} SortDescOrders(s: seq<Standing>)
    ensures NonIncreasing(SortDesc(s))
    decreases |s|
  {
    if |s| > 0 {
      SortDescOrders(s[1..]);
      InsertKeepsOrder(s[0], SortDesc(s[1..]));
    }
  }

  /** Sorting standings of distinct athletes keeps them distinct. */
  lemma {:induction false} SortDescKeepsDistinct(s: seq<Standing>)
    requires DistinctAthletes(s)
    ensures DistinctAthletes(SortDesc(s))
    decreases |s|
  {
    if |s| > 0 {
      var tail := s[1..];
      var t := SortDesc(tail);
      assert DistinctAthletes(tail) by {
        forall i, j | 0 <= i < j < |tail| ensures tail[i].athlete != tail[j].athlete {
          assert tail[i] == s[i + 1] && tail[j] == s[j + 1];
        }
      }
      SortDescKeepsDistinct(tail);
      SortDescPermutes(tail);
      forall i | 0 <= i < |t| ensures t[i].athlete != s[0].athlete {
        assert t[i] in multiset(tail);
        var k :| 0 <= k < |tail| && tail[k] == t[i];
        assert s[k + 1] == t[i];
      }
      InsertKeepsDistinct(s[0], t);
    }
  }

  /** The ranking for a month. */
  function Ranking(acts: seq<Activity>, month: Month): seq<Standing> {
    SortDesc(Standings(MonthEntries(acts, month)))
  }

  predicate Ranked(r: seq<Standing>, name: string) {
    exists i :: 0 <= i < |r| && r[i].athlete == name
  }

  /** The ranking is ordered by non-increasing total and names each athlete
      once. */
  lemma RankingOrdered(acts: seq<Activity>, month: Month)
    ensures NonIncreasing(Ranking(acts, month))
    ensures DistinctAthletes(Ranking(acts, month))
  {
    var st := Standings(MonthEntries(acts, month));
    var names := Athletes(MonthEntries(acts, month));
    assert DistinctAthletes(st) by {
      forall i, j | 0 <= i < j < |st| ensures st[i].athlete != st[j].athlete {
        assert st[i].athlete == names[i] && st[j].athlete == names[j];
      }
    }
    SortDescOrders(st);
    SortDescKeepsDistinct(st);
  }

  /** Each athlete's total in the ranking is the sum of that athlete's
      kilometres in the month. */
  lemma RankingTotals(acts: seq<Activity>, month: Month)
    ensures var r := Ranking(acts, month);
      forall i :: 0 <= i < |r| ==> r[i].total == AthleteTotal(MonthEntries(acts, month), r[i].athlete)
  {
    var st := Standings(MonthEntries(acts, month));
    var r := Ranking(acts, month);
    SortDescPermutes(st);
    forall i | 0 <= i < |r| ensures r[i].total == AthleteTotal(MonthEntries(acts, month), r[i].athlete) {
      assert r[i] in multiset(st);
      var k :| 0 <= k < |st| && st[k] == r[i];
    }
  }

  /** An athlete is ranked exactly when they have an activity in the month
      (of any year). */
  lemma RankingMembers(acts: seq<Activity>, month: Month, name: string)
    ensures Ranked(Ranking(acts, month), name) <==> ActiveInMonth(acts, month, name)
  {
    var es := MonthEntries(acts, month);
    var st := Standings(es);
    var names := Athletes(es);
    var r := Ranking(acts, month);
    MonthEntriesAthletes(acts, month, name);
    SortDescPermutes(st);
    if Ranked(r, name) {
      var i :| 0 <= i < |r| && r[i].athlete == name;
      assert r[i] in multiset(st);
      var k :| 0 <= k < |st| && st[k] == r[i];
      assert names[k] == name;
    }
    if name in names {
      var k :| 0 <= k < |names| && names[k] == name;
      assert st[k] in multiset(r);
      var i :| 0 <= i < |r| && r[i] == st[k];
    }
  }

  /** Sum of the kilometres of the entries. */
  function EntriesKm(es: seq<Entry>): int {
    if |es| == 0 then 0 else es[0].centiKm + EntriesKm(es[1..])
  }

  /** Sum of the totals of the standings. */
  function StandingsKm(s: seq<Standing>): int {
    if |s| == 0 then 0 else s[0].total + StandingsKm(s[1..])
  }

  lemma {:induction false} InsertKeepsKm(x: Standing, s: seq<Standing>)
    ensures StandingsKm(Insert(x, s)) == x.total + StandingsKm(s)
    decreases |s|
  {
    if |s| > 0 && x.total < s[0].total {
      InsertKeepsKm(x, s[1..]);
    }
  }

  lemma {:induction false} SortDescKeepsKm(s: seq<Standing>)
    ensures StandingsKm(SortDesc(s)) == StandingsKm(s)
    decreases |s|
  {
    if |s| > 0 {
      SortDescKeepsKm(s[1..]);
      InsertKeepsKm(s[0], SortDesc(s[1..]));
    }
  }

  /** Adding one entry in front raises the standings of distinct names by
      its kilometres when its athlete is listed. */
  lemma {:induction false} StandingsOfConsEntry(names: seq<string>, e: Entry, es: seq<Entry>)
    requires DistinctNames(names)
    ensures StandingsKm(StandingsOf(names, [e] + es)) ==
            StandingsKm(StandingsOf(names, es)) + (if e.athlete in names then e.centiKm else 0)
    decreases |names|
  {
    if |names| > 0 {
      var tail := names[1..];
      assert DistinctNames(tail) by {
        forall i, j | 0 <= i < j < |tail| ensures tail[i] != tail[j] {
          assert tail[i] == names[i + 1] && tail[j] == names[j + 1];
        }
      }
      StandingsOfConsEntry(tail, e, es);
      assert ([e] + es)[1..] == es;
      assert e.athlete in names <==> e.athlete == names[0] || e.athlete in tail;
      if e.athlete == names[0] {
        assert e.athlete !in tail by {
          forall i | 0 <= i < |tail| ensures tail[i] != names[0] {
            assert tail[i] == names[i + 1];
          }
        }
      }
    }
  }

  /** Grouping by distinct names that cover every entry keeps the kilometres. */
  lemma {:induction false} StandingsOfKeepKm(names: seq<string>, es: seq<Entry>)
    requires DistinctNames(names)
    requires forall i :: 0 <= i < |es| ==> es[i].athlete in names
    ensures StandingsKm(StandingsOf(names, es)) == EntriesKm(es)
    decreases |es|
  {
    if |es| == 0 {
      NoEntriesNoKm(names);
    } else {
      assert es == [es[0]] + es[1..];
      assert forall i :: 0 <= i < |es[1..]| ==> es[1..][i] == es[i + 1];
      StandingsOfKeepKm(names, es[1..]);
      StandingsOfConsEntry(names, es[0], es[1..]);
    }
  }

  lemma {:induction false} NoEntriesNoKm(names: seq<string>)
    ensures StandingsKm(StandingsOf(names, [])) == 0
    decreases |names|
  {
    if |names| > 0 {
      NoEntriesNoKm(names[1..]);
    }
  }

  lemma {:induction false} MonthEntriesKm(acts: seq<Activity>, today: Date)
    requires forall k :: 0 <= k < |acts| && acts[k].sent.month == today.month ==> acts[k].sent.year == today.year
    ensures EntriesKm(MonthEntries(acts, today.month)) == MonthTotal(acts, today)
    decreases |acts|
  {
    if |acts| > 0 {
      assert forall k :: 0 <= k < |acts[1..]| ==> acts[1..][k] == acts[k + 1];
      MonthEntriesKm(acts[1..], today);
    }
  }

  /** The ranking shares out the month's kilometres (of every year) among
      the athletes without losing or adding any; when no activity of this
      month comes from another year, they add up to the tank total. */
  lemma RankingAddsUpToMonth(acts: seq<Activity>, today: Date)
    ensures StandingsKm(Ranking(acts, today.month)) == EntriesKm(MonthEntries(acts, today.month))
    ensures (forall k :: 0 <= k < |acts| && acts[k].sent.month == today.month ==> acts[k].sent.year == today.year) ==>
              StandingsKm(Ranking(acts, today.month)) == MonthTotal(acts, today)
  {
    var es := MonthEntries(acts, today.month);
    var names := Athletes(es);
    forall i | 0 <= i < |es| ensures es[i].athlete in names {
      assert HasEntry(es, es[i].athlete);
    }
    StandingsOfKeepKm(names, es);
    SortDescKeepsKm(Standings(es));
    if forall k :: 0 <= k < |acts| && acts[k].sent.month == today.month ==> acts[k].sent.year == today.year {
      MonthEntriesKm(acts, today);
    }
  }

  /** The ranking depends only on the athletes, kilometres and month numbers
      of the activities: changing their years changes nothing. */
  lemma {:induction false} RankingIgnoresYear(acts: seq<Activity>, acts2: seq<Activity>, month: Month)
    requires |acts| == |acts2|
    requires forall k :: 0 <= k < |acts| ==>
      acts[k].athlete == acts2[k].athlete && acts[k].centiKm == acts2[k].centiKm &&
      acts[k].sent.month == acts2[k].sent.month
    ensures Ranking(acts, month) == Ranking(acts2, month)
  {
    MonthEntriesIgnoreYear(acts, acts2, month);
  }

  lemma {:induction false} MonthEntriesIgnoreYear(acts: seq<Activity>, acts2: seq<Activity>, month: Month)
    requires |acts| == |acts2|
    requires forall k :: 0 <= k < |acts| ==>
      acts[k].athlete == acts2[k].athlete && acts[k].centiKm == acts2[k].centiKm &&
      acts[k].sent.month == acts2[k].sent.month
    ensures MonthEntries(acts, month) == MonthEntries(acts2, month)
    decreases |acts|
  {
    if |acts| > 0 {
      MonthEntriesIgnoreYear(acts[1..], acts2[1..], month);
    }
  }

  /** The tank counts the current year only, the ranking every year's same
      month: an activity from this month last year is ranked but not in the
      tank. */
  lemma TankAndRankingDifferOnYear()
    ensures var today := Date(2026, 3);
      var past := Activity("Ana", Corrida, 500, None, Date(2025, 3), None, None);
      MonthTotal([past], today) == 0 && Ranking([past], today.month) == [Standing("Ana", 500)]
  {
    var today := Date(2026, 3);
    var past := Activity("Ana", Corrida, 500, None, Date(2025, 3), None, None);
    assert MonthEntries([past], 3) == [Entry("Ana", 500)];
    assert Athletes([Entry("Ana", 500)]) == ["Ana"];
  }

  // ---------------------------------------------------------------------
  // The view

  datatype View = View(goal: int, total: int, percent: int, ranking: seq<Standing>)

  /** What `dashboard` puts in the page context; a zero goal makes the
      view fail with a division by zero. */
  function DashboardView(goals: seq<Goal>, acts: seq<Activity>, today: Date): (r: Result<View, DashboardError>)
    ensures r.Err? <==> GoalValue(goals, today) == 0
    ensures r.Ok? ==> r.value.percent <= FullTank && NonIncreasing(r.value.ranking) &&
                      DistinctAthletes(r.value.ranking)
  {
    var goal := GoalValue(goals, today);
    var total := MonthTotal(acts, today);
    match Percentage(total, goal)
    case Err(e) => Err(e)
    case Ok(percent) =>
      RankingOrdered(acts, today.month);
      Ok(View(goal, total, percent, Ranking(acts, today.month)))
  }
}
