/**
 How long a user may stay by a Login-Time (timestr_match in timestr.c), and what the decision about the
 request makes of the answer (auth.c).  A week is a table that says of every minute whether it is allowed.
 */
module LoginTime {
  import opened Octets
  import opened Authenticate

  const WEEKMIN := 24 * 60 * 7

  type Week = w: seq<bool> | |w| == WEEKMIN witness seq(WEEKMIN, _ => false)

  type Minute = n: nat | n < WEEKMIN

  /** The minute `k` minutes later, by the week. */
  function Later(now: Minute, k: nat): (i: Minute)
    requires k <= WEEKMIN
  {
    if now + k < WEEKMIN then now + k else now + k - WEEKMIN
  }

  lemma OneLater(now: Minute, k: nat)
    requires k < WEEKMIN
    ensures Later(now, k + 1) == (Later(now, k) + 1) % WEEKMIN
    ensures Later(now, k + 1) == now <==> k + 1 == WEEKMIN
  {
  }

  /** How many minutes from `now` on are allowed without a gap, seen after `k` of them. */
  function Stretch(week: Week, now: Minute, k: nat): (n: nat)
    requires k <= WEEKMIN
    ensures k <= n <= WEEKMIN && (forall j :: k <= j < n ==> week[Later(now, j)])
    ensures n < WEEKMIN ==> !week[Later(now, n)]
    decreases WEEKMIN - k
  {
    if k == WEEKMIN || !week[Later(now, k)] then k else Stretch(week, now, k + 1)
  }

  /** Seconds left: -1 for none, 0 for no limit. */
  function Left(week: Week, now: Minute): (r: int32)
  {
    var n := Stretch(week, now, 0);
    if n == 0 then -1 else if n == WEEKMIN then 0 else 60 * n
  }

  /** The walk over the table. */
  method TimestrMatch(week: Week, now: Minute) returns (r: int32)
    ensures r == Left(week, now)
  {
    var tot, i: nat := 0, now;
    ghost var n := 0;
    var more := true;
    while more
      invariant 0 <= n <= WEEKMIN && tot == 60 * n && i == Later(now, n)
      invariant more ==> n < WEEKMIN && Stretch(week, now, 0) == Stretch(week, now, n)
      invariant !more ==> n == Stretch(week, now, 0)
      decreases WEEKMIN - n, more
    {
      if !week[i] {
        more := false;
      } else {
        OneLater(now, n);
        tot, n := tot + 60, n + 1;
        i := (i + 1) % WEEKMIN;
        if i == now {
          more := false;
        }
      }
    }
    if tot == 0 {
      return -1;
    }
    r := if i == now then 0 else tot;
  }

  lemma Reached(now: Minute, i: Minute) returns (k: nat)
    ensures k < WEEKMIN && Later(now, k) == i
  {
    k := if i >= now then i - now else i + WEEKMIN - now;
  }

  predicate Always(week: Week)
  {
    forall i :: 0 <= i < WEEKMIN ==> week[i]
  }

  /** The answer is 0 exactly if every minute of the week is allowed, and -1 exactly if this one is not. */
  lemma LeftMeans(week: Week, now: Minute)
    ensures Left(week, now) == 0 <==> Always(week)
    ensures Left(week, now) == -1 <==> !week[now]
    ensures Left(week, now) >= 60 <==> week[now] && !Always(week)
  {
    var n := Stretch(week, now, 0);
    assert Later(now, 0) == now;
    if n == WEEKMIN {
      forall i: Minute ensures week[i] {
        var k := Reached(now, i);
        assert week[Later(now, k)];
      }
    }
  }

  /** The answer counts 60 seconds for each minute up to the first one that is not allowed, across the end of the
      week too. */
  lemma LeftIs(week: Week, now: Minute, k: nat)
    requires 1 <= k < 10080 && !week[(now + k) % 10080]
    requires forall j :: 0 <= j < k ==> week[Later(now, j)]
    ensures Left(week, now) == 60 * k
    ensures forall j :: 0 <= j <= k ==> Later(now, j) == (now + j) % 10080
  {
    var n := Stretch(week, now, 0);
    assert !week[Later(now, k)];
  }

  /** A user with a Login-Time who gets as far as that is accepted exactly if this minute is allowed, some
      minute of the week is not, and the last gates let the request pass. */
  lemma HoursDecide(m: Modules, p: Proxy, s: State, hours: Item,
                    week: Week, now: Minute)
    requires Honest(m) && s.code == 0 && BeforeHours(m, p, s).Some?
    requires Find(BeforeHours(m, p, s).value.config, LOGIN_TIME) == Some(hours)
    requires m.timeLeft(hours.text) == Left(week, now)
    ensures var u := BeforeHours(m, p, s).value;
            Decided(m, p, s).state.code == ACCEPT
            <==> && week[now] && !Always(week)
                 && Ends(m, u.(reply := Limited(u.reply, Left(week, now))))
  {
    LeftMeans(week, now);
    LoginTimeDecides(m, p, s, hours);
  }
}
