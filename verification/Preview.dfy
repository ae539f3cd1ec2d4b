/** The daily quota of the free preview. */
module Preview {

  const PREVIEW_PER_IP_DAY: int := 25
  const PREVIEW_GLOBAL_DAY: int := 2000

  /** A calendar day, counted from any fixed day; None before the first request. */
  datatype Day = Never | On(date: int)

  datatype Tally = Tally(day: Day, count: int)

  datatype Quota = Quota(all: Tally, byIp: map<string, Tally>)

  datatype Answer = Granted(remaining: int) | AddressUsedUp | TierUsedUp

  const UNUSED := Quota(Tally(Never, 0), map[])

  function Rolled(q: Quota, day: Day): Quota {
    if q.all.day != day then Quota(Tally(day, 0), map[]) else q
  }

  function Used(q: Quota, ip: string, day: Day): int {
    if ip in q.byIp && q.byIp[ip].day == day then q.byIp[ip].count else 0
  }

  function Take(q: Quota, ip: string, day: Day): (Quota, Answer) {
    var q1 := Rolled(q, day);
    var used := Used(q1, ip, day);
    if used >= PREVIEW_PER_IP_DAY then (q1, AddressUsedUp)
    else if q1.all.count >= PREVIEW_GLOBAL_DAY then (q1, TierUsedUp)
    else
      (Quota(q1.all.(count := q1.all.count + 1), q1.byIp[ip := Tally(day, used + 1)]),
       Granted(PREVIEW_PER_IP_DAY - used - 1))
  }

  class PreviewCounter {
    var all: Tally
    var byIp: map<string, Tally>

    constructor ()
      ensures View() == UNUSED
    {
      all, byIp := Tally(Never, 0), map[];
    }

    ghost function View(): Quota
      reads this
    {
      Quota(all, byIp)
    }

    method TakePreview(ip: string, day: Day) returns (answer: Answer)
      modifies this
      ensures (View(), answer) == Take(old(View()), ip, day)
    {
      if all.day != day {
        all := Tally(day, 0);
        byIp := map[];
      }
      var used := if ip in byIp && byIp[ip].day == day then byIp[ip].count else 0;
      if used >= PREVIEW_PER_IP_DAY {
        return AddressUsedUp;
      }
      if all.count >= PREVIEW_GLOBAL_DAY {
        return TierUsedUp;
      }
      all := all.(count := all.count + 1);
      byIp := byIp[ip := Tally(day, used + 1)];
      return Granted(PREVIEW_PER_IP_DAY - used - 1);
    }
  }

  // ----- The quota as a count over the log of grants -----

  datatype Request = Request(ip: string, date: int)

  /** Grants in the log on a date, to one address or (None) to all. */
  datatype Who = Everyone | Address(ip: string)

  predicate Matches(r: Request, who: Who, date: int) {
    r.date == date && (who.Everyone? || who.ip == r.ip)
  }

  function Grants(log: seq<Request>, who: Who, date: int): nat {
    if log == [] then 0
    else Grants(log[..|log| - 1], who, date) + if Matches(log[|log| - 1], who, date) then 1 else 0
  }

  /** What the quota is for: the answer given by counting, with no counters to reset. */
  function FromLog(log: seq<Request>, r: Request): Answer {
    var used := Grants(log, Address(r.ip), r.date);
    if used >= PREVIEW_PER_IP_DAY then AddressUsedUp
    else if Grants(log, Everyone, r.date) >= PREVIEW_GLOBAL_DAY then TierUsedUp
    else Granted(PREVIEW_PER_IP_DAY - used - 1)
  }

  function Logged(log: seq<Request>, r: Request, answer: Answer): seq<Request> {
    if answer.Granted? then log + [r] else log
  }

  /** Sum of the per-address counts. */
  ghost function SumOf(m: map<string, Tally>): int {
    if m == map[] then 0
    else
      var ip :| ip in m;
      m[ip].count + SumOf(m - {ip})
  }

  lemma {:induction false} SumOfAny(m: map<string, Tally>, ip: string)
    requires ip in m
    ensures SumOf(m) == m[ip].count + SumOf(m - {ip})
  {
    var first :| first in m && SumOf(m) == m[first].count + SumOf(m - {first});
    if first != ip {
      SumOfAny(m - {first}, ip);
      SumOfAny(m - {ip}, first);
      assert m - {first} - {ip} == m - {ip} - {first};
    }
  }

  /** The counters agree with each other. */
  ghost predicate Consistent(q: Quota) {
    && q.all.count == SumOf(q.byIp)
    && (forall ip :: ip in q.byIp ==> q.byIp[ip].day == q.all.day && 1 <= q.byIp[ip].count <= PREVIEW_PER_IP_DAY)
    && 0 <= q.all.count <= PREVIEW_GLOBAL_DAY
  }

  /** Whatever the clock does, the global count stays the sum of the per-address counts, all of the
      same day and within their limits. */
  lemma TakeConsistent(q: Quota, ip: string, day: Day)
    requires Consistent(q)
    ensures Consistent(Take(q, ip, day).0)
  {
    var q1 := Rolled(q, day);
    assert SumOf(map[]) == 0;
    var q2 := Take(q, ip, day).0;
    if Take(q, ip, day).1.Granted? {
      SumOfAny(q2.byIp, ip);
      assert q2.byIp - {ip} == q1.byIp - {ip};
      if ip in q1.byIp {
        SumOfAny(q1.byIp, ip);
      } else {
        assert q1.byIp - {ip} == q1.byIp;
      }
    }
  }

  /** The counters hold exactly the log's grants of the day they are for. */
  ghost predicate Represents(q: Quota, log: seq<Request>) {
    && (q.all.day == Never ==> log == [])
    && (q.all.day.On? ==> q.all.count == Grants(log, Everyone, q.all.day.date))
    && (q.all.day.On? ==> forall ip :: Used(q, ip, q.all.day) == Grants(log, Address(ip), q.all.day.date))
  }

  lemma {:induction false} NoGrants(log: seq<Request>, who: Who, date: int)
    requires forall r :: r in log ==> r.date != date
    ensures Grants(log, who, date) == 0
  {
    if log != [] {
      NoGrants(log[..|log| - 1], who, date);
      assert log[|log| - 1] in log;
    }
  }

  lemma GrantsAppend(log: seq<Request>, r: Request, who: Who, date: int)
    ensures Grants(log + [r], who, date) == Grants(log, who, date) + if Matches(r, who, date) then 1 else 0
  {
    assert (log + [r])[..|log|] == log;
  }

  /** The day of the counters is still `date`, or the log has nothing for it. */
  predicate DayIsCurrent(q: Quota, log: seq<Request>, date: int) {
    q.all.day == On(date) || forall r :: r in log ==> r.date != date
  }

  lemma RolledRepresents(q: Quota, log: seq<Request>, date: int)
    requires Represents(q, log) && DayIsCurrent(q, log, date)
    ensures var q1 := Rolled(q, On(date));
            && q1.all.day == On(date) && q1.all.count == Grants(log, Everyone, date)
            && forall ip :: Used(q1, ip, On(date)) == Grants(log, Address(ip), date)
  {
    if q.all.day != On(date) {
      NoGrants(log, Everyone, date);
      forall ip ensures Grants(log, Address(ip), date) == 0 {
        NoGrants(log, Address(ip), date);
      }
    }
  }

  lemma TakeRepresents(q: Quota, log: seq<Request>, r: Request)
    requires Represents(q, log) && DayIsCurrent(q, log, r.date)
    ensures Take(q, r.ip, On(r.date)).1 == FromLog(log, r)
    ensures Take(q, r.ip, On(r.date)).0.all.day == On(r.date)
    ensures Represents(Take(q, r.ip, On(r.date)).0, Logged(log, r, FromLog(log, r)))
  {
    RolledRepresents(q, log, r.date);
    GrantsAppend(log, r, Everyone, r.date);
    forall ip ensures Grants(log + [r], Address(ip), r.date)
                   == Grants(log, Address(ip), r.date) + if ip == r.ip then 1 else 0
    {
      GrantsAppend(log, r, Address(ip), r.date);
    }
  }

  function Answers(q: Quota, rs: seq<Request>): seq<Answer>
    decreases |rs|
  {
    if rs == [] then []
    else
      var (q', answer) := Take(q, rs[0].ip, On(rs[0].date));
      [answer] + Answers(q', rs[1..])
  }

  function AnswersFromLog(log: seq<Request>, rs: seq<Request>): seq<Answer>
    decreases |rs|
  {
    if rs == [] then [] else [FromLog(log, rs[0])] + AnswersFromLog(Logged(log, rs[0], FromLog(log, rs[0])), rs[1..])
  }

  function FullLog(log: seq<Request>, rs: seq<Request>): seq<Request>
    decreases |rs|
  {
    if rs == [] then log else FullLog(Logged(log, rs[0], FromLog(log, rs[0])), rs[1..])
  }

  /** The date at `i` comes back at `k` after another one at `j`. */
  predicate Returns(dates: seq<int>, i: int, j: int, k: int) {
    0 <= i < j < k < |dates| && dates[i] == dates[k] && dates[j] != dates[k]
  }

  /** The requests of every date come one after the other, with none of another date between. */
  ghost predicate Contiguous(dates: seq<int>) {
    forall i, j, k :: !Returns(dates, i, j, k)
  }

  function Requests(dates: seq<int>, ips: seq<string>): (rs: seq<Request>)
    requires |ips| == |dates|
    ensures |rs| == |dates|
  {
    seq(|dates|, i requires 0 <= i < |dates| => Request(ips[i], dates[i]))
  }

  function DatesOf(rs: seq<Request>): (dates: seq<int>)
    ensures |dates| == |rs|
  {
    seq(|rs|, i requires 0 <= i < |rs| => rs[i].date)
  }

  /** Where the run stands: `past` is over, `log` are the grants among it and the counters are for its last day. */
  ghost predicate Reached(q: Quota, log: seq<Request>, past: seq<Request>) {
    && Represents(q, log)
    && (forall r :: r in log ==> r in past)
    && q.all.day == if past == [] then Never else On(past[|past| - 1].date)
  }

  lemma ReachedIsCurrent(q: Quota, log: seq<Request>, past: seq<Request>, rs: seq<Request>)
    requires Reached(q, log, past) && rs != [] && Contiguous(DatesOf(past + rs))
    ensures DayIsCurrent(q, log, rs[0].date)
  {
    var dates := DatesOf(past + rs);
    forall r | r in log && q.all.day != On(rs[0].date) ensures r.date != rs[0].date {
      var i :| 0 <= i < |past| && past[i] == r;
      assert dates[i] == r.date && dates[|past| - 1] == past[|past| - 1].date && dates[|past|] == rs[0].date;
      assert !Returns(dates, i, |past| - 1, |past|);
    }
  }

  lemma TakeReaches(q: Quota, log: seq<Request>, past: seq<Request>, r: Request)
    requires Reached(q, log, past) && DayIsCurrent(q, log, r.date)
    ensures Take(q, r.ip, On(r.date)).1 == FromLog(log, r)
    ensures Reached(Take(q, r.ip, On(r.date)).0, Logged(log, r, FromLog(log, r)), past + [r])
  {
    TakeRepresents(q, log, r);
  }

  lemma {:induction false} RunCounts(q: Quota, log: seq<Request>, past: seq<Request>, rs: seq<Request>)
    requires Reached(q, log, past) && Contiguous(DatesOf(past + rs))
    ensures Answers(q, rs) == AnswersFromLog(log, rs)
    decreases |rs|
  {
    if rs != [] {
      hide Reached, Contiguous, DayIsCurrent, FromLog, Take, Logged;
      ReachedIsCurrent(q, log, past, rs);
      TakeReaches(q, log, past, rs[0]);
      assert past + [rs[0]] + rs[1..] == past + rs;
      RunCounts(Take(q, rs[0].ip, On(rs[0].date)).0, Logged(log, rs[0], FromLog(log, rs[0])), past + [rs[0]], rs[1..]);
    }
  }

  /** While no date comes back, resetting counters answers exactly as counting the whole log would. */
  lemma CountersAreTheLog(rs: seq<Request>)
    requires Contiguous(DatesOf(rs))
    ensures Answers(UNUSED, rs) == AnswersFromLog([], rs)
  {
    assert [] + rs == rs;
    RunCounts(UNUSED, [], [], rs);
  }

  // ----- When a date comes back -----

  /** `dates[k]` was there before, but not just before. */
  predicate ComesBack(dates: seq<int>, k: nat) {
    0 < k < |dates| && dates[k - 1] != dates[k] && dates[k] in dates[..k]
  }

  lemma PrefixAt(dates: seq<int>, n: nat, i: int)
    ensures 0 <= i < n <= |dates| ==> dates[..n][i] == dates[i]
  {
  }

  lemma ReturnsLate(dates: seq<int>, n: nat, i: int, j: int, k: int)
    requires n <= |dates| && Contiguous(dates[..n]) && Returns(dates, i, j, k)
    ensures k >= n
  {
    PrefixAt(dates, n, i);
    PrefixAt(dates, n, j);
    PrefixAt(dates, n, k);
    assert !Returns(dates[..n], i, j, k);
  }

  lemma {:induction false} FirstComeBack(dates: seq<int>) returns (k: nat)
    requires !Contiguous(dates)
    ensures ComesBack(dates, k) && Contiguous(dates[..k])
  {
    var n := |dates| - 1;
    if Contiguous(dates[..n]) {
      k := n;
      var i, j, l :| Returns(dates, i, j, l);
      ReturnsLate(dates, n, i, j, l);
      PrefixAt(dates, n, i);
      if dates[n - 1] == dates[n] && j < n - 1 {
        ReturnsLate(dates, n, i, j, n - 1);
      }
    } else {
      k := FirstComeBack(dates[..n]);
      assert dates[..n][..k] == dates[..k];
    }
  }

  function FromOne(dates: seq<int>): (rs: seq<Request>)
    ensures |rs| == |dates|
    ensures forall i :: 0 <= i < |dates| ==> rs[i] == Request("", dates[i])
  {
    seq(|dates|, i requires 0 <= i < |dates| => Request("", dates[i]))
  }

  function StateAfter(q: Quota, rs: seq<Request>): Quota
    decreases |rs|
  {
    if rs == [] then q else StateAfter(Take(q, rs[0].ip, On(rs[0].date)).0, rs[1..])
  }

  lemma {:induction false} AnswersLast(q: Quota, rs: seq<Request>, r: Request, more: seq<Request>)
    ensures |Answers(q, rs + [r] + more)| > |rs|
    ensures Answers(q, rs + [r] + more)[|rs|] == Take(StateAfter(q, rs), r.ip, On(r.date)).1
    decreases |rs|
  {
    hide Take;
    var all := rs + [r] + more;
    if rs != [] {
      assert all[0] == rs[0] && all[1..] == rs[1..] + [r] + more;
      AnswersLast(Take(q, rs[0].ip, On(rs[0].date)).0, rs[1..], r, more);
    }
  }

  lemma {:induction false} LogAnswersLast(log: seq<Request>, rs: seq<Request>, r: Request, more: seq<Request>)
    ensures |AnswersFromLog(log, rs + [r] + more)| > |rs|
    ensures AnswersFromLog(log, rs + [r] + more)[|rs|] == FromLog(FullLog(log, rs), r)
    decreases |rs|
  {
    hide FromLog, Logged;
    var all := rs + [r] + more;
    if rs != [] {
      assert all[0] == rs[0] && all[1..] == rs[1..] + [r] + more;
      LogAnswersLast(Logged(log, rs[0], FromLog(log, rs[0])), rs[1..], r, more);
    }
  }

  lemma {:induction false} DayAfter(q: Quota, rs: seq<Request>)
    requires rs != []
    ensures StateAfter(q, rs).all.day == On(rs[|rs| - 1].date)
    decreases |rs|
  {
    if |rs| > 1 {
      hide Take;
      DayAfter(Take(q, rs[0].ip, On(rs[0].date)).0, rs[1..]);
    } else {
      assert rs[1..] == [];
    }
  }

  lemma {:induction false} GrantsSurvive(log: seq<Request>, rs: seq<Request>, who: Who, date: int)
    ensures Grants(FullLog(log, rs), who, date) >= Grants(log, who, date)
    decreases |rs|
  {
    if rs != [] {
      GrantsAppend(log, rs[0], who, date);
      GrantsSurvive(Logged(log, rs[0], FromLog(log, rs[0])), rs[1..], who, date);
    }
  }

  /** Whoever asked on a date for an unused tier has a grant of that date, the first request being granted. */
  lemma {:induction false} SomeGrant(log: seq<Request>, rs: seq<Request>, i: nat)
    requires i < |rs|
    requires Grants(log, Address(rs[i].ip), rs[i].date) > 0 || Grants(log, Everyone, rs[i].date) == 0
    requires forall r :: r in rs ==> r.ip == rs[i].ip
    ensures Grants(FullLog(log, rs), Address(rs[i].ip), rs[i].date) > 0
    decreases |rs|
  {
    var ip, date := rs[i].ip, rs[i].date;
    var log' := Logged(log, rs[0], FromLog(log, rs[0]));
    GrantsAtMostAll(log, ip, date);
    GrantsAppend(log, rs[0], Address(ip), date);
    GrantsAppend(log, rs[0], Everyone, date);
    assert rs[0] in rs && rs[0].ip == ip;
    if Grants(log', Address(ip), date) > 0 {
      GrantsSurvive(log', rs[1..], Address(ip), date);
    } else {
      assert rs[i] == rs[1..][i - 1];
      SomeGrant(log', rs[1..], i - 1);
    }
  }

  lemma {:induction false} GrantsAtMostAll(log: seq<Request>, ip: string, date: int)
    ensures Grants(log, Address(ip), date) <= Grants(log, Everyone, date)
  {
    if log != [] {
      GrantsAtMostAll(log[..|log| - 1], ip, date);
    }
  }

  /** Any change of day starts afresh: the answer is that of the first request of a day. */
  lemma DayChangeForgives(q: Quota, ip: string, date: int)
    requires q.all.day != On(date)
    ensures Take(q, ip, On(date)).1 == Granted(PREVIEW_PER_IP_DAY - 1)
  {
  }

  /** At a date that has a grant in the log, the answer is not that of a fresh day. */
  lemma GrantShows(log: seq<Request>, r: Request)
    requires Grants(log, Address(r.ip), r.date) > 0
    ensures FromLog(log, r) != Granted(PREVIEW_PER_IP_DAY - 1)
  {
  }

  lemma SplitFromOne(dates: seq<int>, k: nat)
    requires k < |dates|
    ensures FromOne(dates) == FromOne(dates)[..k] + [FromOne(dates)[k]] + FromOne(dates)[k + 1..]
    ensures forall i :: 0 <= i < k ==> FromOne(dates)[..k][i] == Request("", dates[i])
  {
  }

  lemma AllFromOne(dates: seq<int>, k: nat)
    requires k < |dates|
    ensures forall x :: x in FromOne(dates)[..k] ==> x.ip == ""
  {
  }

  /** One address that asks each time is answered wrongly when a date comes back. */
  lemma ComeBackIsForgotten(dates: seq<int>)
    requires !Contiguous(dates)
    ensures Answers(UNUSED, FromOne(dates)) != AnswersFromLog([], FromOne(dates))
  {
    var k := FirstComeBack(dates);
    var i :| 0 <= i < k && dates[..k][i] == dates[k];
    assert dates[k - 1] != dates[k];
    hide *;
    var rs := FromOne(dates);
    var before, r, after := rs[..k], rs[k], rs[k + 1..];
    SplitFromOne(dates, k);
    AllFromOne(dates, k);
    assert before[i] == Request("", dates[i]) && before[k - 1] == Request("", dates[k - 1]);
    AnswersLast(UNUSED, before, r, after);
    LogAnswersLast([], before, r, after);
    DayAfter(UNUSED, before);
    DayChangeForgives(StateAfter(UNUSED, before), r.ip, r.date);
    NoGrants([], Everyone, r.date);
    SomeGrant([], before, i);
    GrantShows(FullLog([], before), r);
  }

  /** For given days, resetting counters answers as counting the whole log would, whoever asks, if and only if no
      date comes back after another. */
  lemma CountersAreTheLogIff(dates: seq<int>)
    ensures Contiguous(dates)
       <==> forall ips: seq<string> :: |ips| == |dates| ==>
              Answers(UNUSED, Requests(dates, ips)) == AnswersFromLog([], Requests(dates, ips))
  {
    if Contiguous(dates) {
      forall ips: seq<string> | |ips| == |dates|
        ensures Answers(UNUSED, Requests(dates, ips)) == AnswersFromLog([], Requests(dates, ips))
      {
        assert DatesOf(Requests(dates, ips)) == dates;
        CountersAreTheLog(Requests(dates, ips));
      }
    } else {
      ComeBackIsForgotten(dates);
      var ips := seq(|dates|, _ => "");
      assert Requests(dates, ips) == FromOne(dates);
    }
  }

  // ----- The quota -----

  ghost predicate WithinQuota(log: seq<Request>) {
    forall date ::
      && Grants(log, Everyone, date) <= PREVIEW_GLOBAL_DAY
      && forall ip :: Grants(log, Address(ip), date) <= PREVIEW_PER_IP_DAY
  }

  lemma LoggedWithin(log: seq<Request>, r: Request)
    requires WithinQuota(log)
    ensures WithinQuota(Logged(log, r, FromLog(log, r)))
  {
    var log' := Logged(log, r, FromLog(log, r));
    forall date
      ensures Grants(log', Everyone, date) <= PREVIEW_GLOBAL_DAY
      ensures forall ip :: Grants(log', Address(ip), date) <= PREVIEW_PER_IP_DAY
    {
      GrantsAppend(log, r, Everyone, date);
      forall ip ensures Grants(log', Address(ip), date) <= PREVIEW_PER_IP_DAY {
        GrantsAppend(log, r, Address(ip), date);
      }
    }
  }

  lemma {:induction false} FullLogWithin(log: seq<Request>, rs: seq<Request>)
    requires WithinQuota(log)
    ensures WithinQuota(FullLog(log, rs))
    decreases |rs|
  {
    if rs != [] {
      LoggedWithin(log, rs[0]);
      FullLogWithin(Logged(log, rs[0], FromLog(log, rs[0])), rs[1..]);
    }
  }

  /** The requests that were answered with a grant. */
  function GrantedOf(rs: seq<Request>, answers: seq<Answer>): seq<Request>
    requires |rs| == |answers|
  {
    if rs == [] then [] else (if answers[0].Granted? then [rs[0]] else []) + GrantedOf(rs[1..], answers[1..])
  }

  lemma {:induction false} AnswersSize(q: Quota, rs: seq<Request>)
    ensures |Answers(q, rs)| == |rs|
    decreases |rs|
  {
    if rs != [] {
      AnswersSize(Take(q, rs[0].ip, On(rs[0].date)).0, rs[1..]);
    }
  }

  lemma GrantedStep(rs: seq<Request>, answer: Answer, answers: seq<Answer>)
    requires rs != [] && |answers| == |rs| - 1
    ensures GrantedOf(rs, [answer] + answers) == (if answer.Granted? then [rs[0]] else []) + GrantedOf(rs[1..], answers)
  {
    assert ([answer] + answers)[1..] == answers;
  }

  lemma {:induction false} GrantedIsLogged(log: seq<Request>, rs: seq<Request>)
    ensures |AnswersFromLog(log, rs)| == |rs|
    ensures FullLog(log, rs) == log + GrantedOf(rs, AnswersFromLog(log, rs))
    decreases |rs|
  {
    if rs != [] {
      var answer := FromLog(log, rs[0]);
      var log' := Logged(log, rs[0], answer);
      GrantedIsLogged(log', rs[1..]);
      GrantedStep(rs, answer, AnswersFromLog(log', rs[1..]));
      hide FromLog, GrantedOf;
    }
  }

  /** Over a run of the counters in which no date comes back, each address is granted at most 25 previews a day and
      all together at most 2000. */
  lemma QuotaHolds(rs: seq<Request>)
    requires Contiguous(DatesOf(rs))
    ensures |Answers(UNUSED, rs)| == |rs| && WithinQuota(GrantedOf(rs, Answers(UNUSED, rs)))
  {
    AnswersSize(UNUSED, rs);
    CountersAreTheLog(rs);
    GrantedIsLogged([], rs);
    FullLogWithin([], rs);
    assert [] + GrantedOf(rs, Answers(UNUSED, rs)) == GrantedOf(rs, Answers(UNUSED, rs));
  }

  /** In particular while the clock does not go back. */
  lemma ForwardClockKeepsQuota(rs: seq<Request>)
    requires forall i, j :: 0 <= i < j < |rs| ==> rs[i].date <= rs[j].date
    ensures Answers(UNUSED, rs) == AnswersFromLog([], rs)
    ensures |Answers(UNUSED, rs)| == |rs| && WithinQuota(GrantedOf(rs, Answers(UNUSED, rs)))
  {
    var dates := DatesOf(rs);
    forall i, j, k ensures !Returns(dates, i, j, k) {
      assert 0 <= i < j < k < |rs| ==> rs[i].date <= rs[j].date <= rs[k].date;
    }
    CountersAreTheLog(rs);
    QuotaHolds(rs);
  }

  /** Two days in turn, `times` over, with one request on each. */
  function Alternating(ip: string, times: nat): seq<Request> {
    if times == 0 then [] else [Request(ip, 0), Request(ip, 1)] + Alternating(ip, times - 1)
  }

  lemma {:induction false} GrantsConcat(a: seq<Request>, b: seq<Request>, who: Who, date: int)
    ensures Grants(a + b, who, date) == Grants(a, who, date) + Grants(b, who, date)
  {
    if b == [] {
      assert a + b == a;
    } else {
      var n := |b| - 1;
      assert (a + b)[..|a| + n] == a + b[..n] && (a + b)[|a| + n] == b[n];
      GrantsConcat(a, b[..n], who, date);
    }
  }

  lemma TurnIsGranted(q: Quota, ip: string, rest: seq<Request>)
    requires q.all.day != On(0)
    ensures var q1 := Take(q, ip, On(0)).0; var q2 := Take(q1, ip, On(1)).0;
            && q2.all.day == On(1)
            && Answers(q, [Request(ip, 0), Request(ip, 1)] + rest)
            == [Granted(PREVIEW_PER_IP_DAY - 1), Granted(PREVIEW_PER_IP_DAY - 1)] + Answers(q2, rest)
  {
    var q1 := Take(q, ip, On(0)).0;
    var rs := [Request(ip, 0), Request(ip, 1)] + rest;
    assert rs[1..] == [Request(ip, 1)] + rest && rs[1..][1..] == rest;
    assert q1.all.day == On(0);
  }

  lemma TurnCounts(ip: string)
    ensures Grants([Request(ip, 0), Request(ip, 1)], Address(ip), 0) == 1
  {
    GrantsAppend([], Request(ip, 0), Address(ip), 0);
    GrantsAppend([Request(ip, 0)], Request(ip, 1), Address(ip), 0);
    assert [] + [Request(ip, 0)] == [Request(ip, 0)];
  }

  lemma TurnOf(ip: string, times: nat)
    ensures Alternating(ip, times + 1) == [Request(ip, 0), Request(ip, 1)] + Alternating(ip, times)
    ensures Alternating(ip, 0) == [] && Grants([], Address(ip), 0) == 0
    ensures GrantedOf([], []) == []
  {
  }

  lemma TurnsGranted(turn: seq<Request>, rest: seq<Request>, grant: Answer, answers: seq<Answer>)
    requires |turn| == 2 && grant.Granted? && |answers| == |rest| && GrantedOf(rest, answers) == rest
    ensures GrantedOf(turn + rest, [grant, grant] + answers) == turn + rest
  {
    hide GrantedOf;
    var rs := turn + rest;
    assert rs[1..] == [turn[1]] + rest && rs[1..][1..] == rest;
    GrantedStep(rs[1..], grant, answers);
    GrantedStep(rs, grant, [grant] + answers);
    assert [grant] + ([grant] + answers) == [grant, grant] + answers;
  }

  /** Without that assumption nothing bounds the grants: for every count there is a run that grants one address so
      many previews of one date. */
  lemma {:induction false} NoQuotaWhenDatesComeBack(q: Quota, ip: string, times: nat)
    requires q.all.day != On(0)
    ensures var rs := Alternating(ip, times);
            && |Answers(q, rs)| == |rs| && GrantedOf(rs, Answers(q, rs)) == rs
            && Grants(rs, Address(ip), 0) == times
    decreases times
  {
    hide *;
    if times == 0 {
      TurnOf(ip, 0);
      NoAnswers(q);
    } else {
      var turn, rest := [Request(ip, 0), Request(ip, 1)], Alternating(ip, times - 1);
      var q2 := Take(Take(q, ip, On(0)).0, ip, On(1)).0;
      TurnOf(ip, times - 1);
      TurnIsGranted(q, ip, rest);
      NoQuotaWhenDatesComeBack(q2, ip, times - 1);
      TurnsGranted(turn, rest, Granted(PREVIEW_PER_IP_DAY - 1), Answers(q2, rest));
      TurnCounts(ip);
      GrantsConcat(turn, rest, Address(ip), 0);
    }
  }

  lemma NoAnswers(q: Quota)
    ensures Answers(q, []) == []
  {
  }
}
