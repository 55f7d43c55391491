/** The per-IP GCRA rate limiter of src/ratelimit.rs.

    Times and durations are natural numbers of nanoseconds. The tolerance
    `max_credit` is a parameter, because it is a floating-point product in the source. */
module RateLimit {
  import opened Net
  import opened Arith

  datatype Config = Config(emission: nat, credit: nat, window: nat)

  /** Theoretical arrival time (TAT) of every tracked client. */
  type Buckets = map<IpAddr, nat>

  datatype Event = Check(ip: IpAddr, now: nat) | Cleanup(now: nat, maxIdle: nat)

  // ---- One step ----

  /** The TAT a check at `now` works with: a client that is not tracked starts at `now`. */
  function Tat(b: Buckets, ip: IpAddr, now: nat): nat {
    if ip in b then b[ip] else now
  }

  predicate Allowed(c: Config, b: Buckets, ip: IpAddr, now: nat) {
    Tat(b, ip, now) <= now + c.credit
  }

  function AfterCheck(c: Config, b: Buckets, ip: IpAddr, now: nat): Buckets {
    if Allowed(c, b, ip, now) then b[ip := Max(Tat(b, ip, now), now) + c.emission] else b
  }

  /** `Instant::duration_since` saturates at zero. */
  function Since(now: nat, earlier: nat): nat {
    Max(now - earlier, 0)
  }

  function AfterCleanup(c: Config, b: Buckets, now: nat, maxIdle: nat): Buckets {
    map ip | ip in b && Since(now, b[ip]) < maxIdle + c.window :: b[ip]
  }

  function After(c: Config, b: Buckets, e: Event): Buckets {
    match e
    case Check(ip, now) => AfterCheck(c, b, ip, now)
    case Cleanup(now, maxIdle) => AfterCleanup(c, b, now, maxIdle)
  }

  /** The shared limiter. `Check` takes the timestamp as a parameter: it is read before the
      entry is locked, so successive calls may carry decreasing timestamps. */
  class Limiter {
    const emission: nat
    const credit: nat
    const window: nat
    var buckets: Buckets
    var allows: nat
    var rejects: nat

    function Cfg(): Config { Config(emission, credit, window) }

    constructor (rate: nat, window: nat, credit: nat)
      ensures this.emission * Max(rate, 1) <= window < (this.emission + 1) * Max(rate, 1)
      ensures this.credit == credit && this.window == window
      ensures buckets == map[] && allows == 0 && rejects == 0
    {
      this.emission := window / Max(rate, 1);
      this.credit := credit;
      this.window := window;
      buckets := map[];
      allows, rejects := 0, 0;
      new;
      assert window == emission * Max(rate, 1) + window % Max(rate, 1);
    }

    method Check(ip: IpAddr, now: nat) returns (allowed: bool)
      modifies this
      ensures allowed == Allowed(Cfg(), old(buckets), ip, now)
      ensures buckets == After(Cfg(), old(buckets), Event.Check(ip, now))
      ensures allows == old(allows) + (if allowed then 1 else 0)
      ensures rejects == old(rejects) + (if allowed then 0 else 1)
    {
      if ip !in buckets {
        buckets := buckets[ip := now];
      }
      var tat := buckets[ip];
      if now + credit < tat {
        rejects := rejects + 1;
        return false;
      }
      var newTat := if tat > now then tat + emission else now + emission;
      buckets := buckets[ip := newTat];
      allows := allows + 1;
      return true;
    }

    method Cleanup(now: nat, maxIdle: nat)
      modifies this`buckets
      ensures buckets == After(Cfg(), old(buckets), Event.Cleanup(now, maxIdle))
    {
      buckets := map ip | ip in buckets && Since(now, buckets[ip]) < maxIdle + window :: buckets[ip];
    }
  }

  // ---- Runs ----

  /** The decisions on the checks of client `ip` in a run over all clients. */
  function Decisions(c: Config, b: Buckets, es: seq<Event>, ip: IpAddr): seq<bool>
    decreases |es|
  {
    if es == [] then []
    else
      (if es[0].Check? && es[0].ip == ip then [Allowed(c, b, ip, es[0].now)] else [])
      + Decisions(c, After(c, b, es[0]), es[1..], ip)
  }

  /** Timestamps of the allowed checks of `ip`, in the order the entry was locked. */
  function AllowedStamps(c: Config, b: Buckets, es: seq<Event>, ip: IpAddr): seq<nat>
    decreases |es|
  {
    if es == [] then []
    else
      (if es[0].Check? && es[0].ip == ip && Allowed(c, b, ip, es[0].now) then [es[0].now] else [])
      + AllowedStamps(c, After(c, b, es[0]), es[1..], ip)
  }

  /** The timestamps of the checks of `ip`. */
  function Arrivals(es: seq<Event>, ip: IpAddr): seq<nat> {
    if es == [] then []
    else (if es[0].Check? && es[0].ip == ip then [es[0].now] else []) + Arrivals(es[1..], ip)
  }

  predicate NonDecreasing(es: seq<Event>, from: nat) {
    es == [] || (from <= es[0].now && NonDecreasing(es[1..], es[0].now))
  }

  predicate ChecksOnly(es: seq<Event>) {
    forall e <- es :: e.Check?
  }

  /** Every cleanup in the run has a positive retention time. */
  predicate PositiveRetention(c: Config, es: seq<Event>) {
    forall e <- es :: e.Cleanup? ==> e.maxIdle + c.window > 0
  }

  // ---- Window bound ----

  /** The allowed checks of one client never outrun the emission interval by more than the
      tolerance, for timestamps in any order and with other clients interleaved. */
  lemma {:induction false} WindowBound(c: Config, b: Buckets, es: seq<Event>, ip: IpAddr, i: nat, j: nat)
    requires ChecksOnly(es)
    requires i <= j < |AllowedStamps(c, b, es, ip)|
    ensures var a := AllowedStamps(c, b, es, ip);
            (j - i) * c.emission + a[i] <= a[j] + c.credit
    decreases |es|
  {
    var b' := After(c, b, es[0]);
    if es[0].ip == ip && Allowed(c, b, ip, es[0].now) {
      if i > 0 {
        WindowBound(c, b', es[1..], ip, i - 1, j - 1);
      } else if j > 0 {
        TatGrows(c, b', es[1..], ip, j - 1);
        assert j * c.emission == (j - 1) * c.emission + c.emission;
      }
    } else {
      WindowBound(c, b', es[1..], ip, i, j);
    }
  }

  /** The allowed check number `k` found the TAT at least `k` emissions beyond its start. */
  lemma {:induction false} TatGrows(c: Config, b: Buckets, es: seq<Event>, ip: IpAddr, k: nat)
    requires ChecksOnly(es) && ip in b
    requires k < |AllowedStamps(c, b, es, ip)|
    ensures b[ip] + k * c.emission <= AllowedStamps(c, b, es, ip)[k] + c.credit
    decreases |es|
  {
    var b' := After(c, b, es[0]);
    if es[0].ip == ip && Allowed(c, b, ip, es[0].now) {
      if k > 0 {
        TatGrows(c, b', es[1..], ip, k - 1);
        assert k * c.emission == (k - 1) * c.emission + c.emission;
      }
    } else {
      TatGrows(c, b', es[1..], ip, k);
    }
  }

  /** The buckets after a run. */
  function AfterAll(c: Config, b: Buckets, es: seq<Event>): Buckets
    decreases |es|
  {
    if es == [] then b else AfterAll(c, After(c, b, es[0]), es[1..])
  }

  /** After the allowed stamps `a` one more emission each fits before `x`. */
  predicate Fits(c: Config, a: seq<nat>, x: nat) {
    forall i :: 0 <= i < |a| ==> (|a| - i) * c.emission + a[i] <= x
  }

  lemma FitsCons(c: Config, t: nat, a: seq<nat>, x: nat)
    ensures Fits(c, [t] + a, x) <==> (|a| + 1) * c.emission + t <= x && Fits(c, a, x)
  {
    var s := [t] + a;
    if Fits(c, s, x) {
      assert (|s| - 0) * c.emission + s[0] <= x;
      forall i | 0 <= i < |a| ensures (|a| - i) * c.emission + a[i] <= x {
        assert (|s| - (i + 1)) * c.emission + s[i + 1] <= x;
      }
    }
    if (|a| + 1) * c.emission + t <= x && Fits(c, a, x) {
      forall i | 0 <= i < |s| ensures (|s| - i) * c.emission + s[i] <= x {
        if i > 0 {
          assert (|a| - (i - 1)) * c.emission + a[i - 1] <= x;
        }
      }
    }
  }

  /** The decision on a check in closed form: after any checks in any order, one stamped `t`
      passes exactly when the allowed stamps so far, and the TAT the client started with, leave
      room for it within the tolerance. */
  lemma {:induction false} PassesIff(c: Config, b: Buckets, es: seq<Event>, ip: IpAddr, t: nat)
    requires ChecksOnly(es)
    ensures var a := AllowedStamps(c, b, es, ip);
            Allowed(c, AfterAll(c, b, es), ip, t)
            <==> Fits(c, a, t + c.credit) && (ip in b ==> b[ip] + |a| * c.emission <= t + c.credit)
    decreases |es|
  {
    if es != [] {
      var b' := After(c, b, es[0]);
      var a' := AllowedStamps(c, b', es[1..], ip);
      PassesIff(c, b', es[1..], ip, t);
      if es[0].ip == ip && Allowed(c, b, ip, es[0].now) {
        FitsCons(c, es[0].now, a', t + c.credit);
        assert (|a'| + 1) * c.emission == |a'| * c.emission + c.emission;
      } else {
        assert AllowedStamps(c, b, es, ip) == a';
      }
    }
  }

  /** With a tolerance of `burst - 1` emissions, at most `burst + (t - s) / E` checks are
      allowed from the one stamped `s` to the one stamped `t`. */
  lemma BurstBound(c: Config, b: Buckets, es: seq<Event>, ip: IpAddr, i: nat, j: nat, burst: nat)
    requires ChecksOnly(es)
    requires i <= j < |AllowedStamps(c, b, es, ip)|
    requires 0 < c.emission && 0 < burst && c.credit == (burst - 1) * c.emission
    requires AllowedStamps(c, b, es, ip)[i] <= AllowedStamps(c, b, es, ip)[j]
    ensures var a := AllowedStamps(c, b, es, ip);
            j - i + 1 <= burst + (a[j] - a[i]) / c.emission
  {
    WindowBound(c, b, es, ip, i, j);
    var a := AllowedStamps(c, b, es, ip);
    QuotientBound(j - i, burst - 1, a[j] - a[i], c.emission);
  }

  /** The bound is reached: of simultaneous requests by a new client, request number `k`
      (from zero) passes exactly when `k` emissions fit in the tolerance. */
  lemma BurstIsExact(c: Config, b: Buckets, ip: IpAddr, now: nat, n: nat, k: nat)
    requires ip !in b && k < n
    ensures |Decisions(c, b, Simultaneous(ip, now, n), ip)| == n
    ensures Decisions(c, b, Simultaneous(ip, now, n), ip)[k] <==> k * c.emission <= c.credit
  {
    BurstFrom(c, b, ip, now, 0, n, k);
    TimesIsProduct(k, c.emission);
  }

  function Simultaneous(ip: IpAddr, now: nat, n: nat): seq<Event> {
    if n == 0 then [] else [Event.Check(ip, now)] + Simultaneous(ip, now, n - 1)
  }

  lemma BurstStep(c: Config, b: Buckets, ip: IpAddr, now: nat, n: nat)
    requires 0 < n
    ensures Decisions(c, b, Simultaneous(ip, now, n), ip)
         == [Allowed(c, b, ip, now)] + Decisions(c, AfterCheck(c, b, ip, now), Simultaneous(ip, now, n - 1), ip)
  {
  }

  lemma {:induction false} BurstFrom(c: Config, b: Buckets, ip: IpAddr, now: nat, ahead: nat, n: nat, k: nat)
    requires Tat(b, ip, now) == now + ahead && k < n
    ensures |Decisions(c, b, Simultaneous(ip, now, n), ip)| == n
    ensures Decisions(c, b, Simultaneous(ip, now, n), ip)[k] <==> ahead + Times(k, c.emission) <= c.credit
    decreases n
  {
    BurstStep(c, b, ip, now, n);
    if !Allowed(c, b, ip, now) {
      StaysRejected(c, b, ip, now, n);
      assert !Decisions(c, b, Simultaneous(ip, now, n), ip)[k];
    } else if k > 0 {
      BurstFrom(c, AfterCheck(c, b, ip, now), ip, now, ahead + c.emission, n - 1, k - 1);
    } else if n > 1 {
      BurstFrom(c, AfterCheck(c, b, ip, now), ip, now, ahead + c.emission, n - 1, 0);
    }
  }

  lemma {:induction false} StaysRejected(c: Config, b: Buckets, ip: IpAddr, now: nat, n: nat)
    requires !Allowed(c, b, ip, now)
    ensures var ds := Decisions(c, b, Simultaneous(ip, now, n), ip);
            |ds| == n && forall k :: 0 <= k < n ==> !ds[k]
  {
    if n > 0 {
      var es := Simultaneous(ip, now, n);
      assert es[1..] == Simultaneous(ip, now, n - 1);
      StaysRejected(c, b, ip, now, n - 1);
    }
  }

  // ---- Cleanup ----

  /** The earliest stamp that a check after the event may carry without noticing an eviction:
      an evicted bucket has its TAT at or below it. */
  function FloorAfter(c: Config, floor: nat, e: Event): nat {
    if e.Cleanup? then Max(floor, e.now - (e.maxIdle + c.window)) else floor
  }

  /** Stamps may be out of order, but after an eviction pass at `now` no check is stamped more
      than `d` earlier than `now` minus the retention time. */
  predicate LateByAtMost(c: Config, es: seq<Event>, floor: nat, d: nat) {
    es == []
    || ((es[0].Check? ==> floor <= es[0].now + d) && LateByAtMost(c, es[1..], FloorAfter(c, floor, es[0]), d))
  }

  /** Bounded skew: late by no more than the retention time. */
  predicate WithinSkew(c: Config, es: seq<Event>, floor: nat) {
    LateByAtMost(c, es, floor, 0)
  }

  /** What a bucket amounts to for checks stamped `t` or later. */
  function Effective(b: Buckets, ip: IpAddr, t: nat): nat {
    Max(Tat(b, ip, t), t)
  }

  /** Checks that are not late see the effective TAT only. */
  lemma CheckAgrees(c: Config, b1: Buckets, b2: Buckets, ip: IpAddr, now: nat, t: nat)
    requires t <= now && Effective(b1, ip, t) == Effective(b2, ip, t)
    ensures Allowed(c, b1, ip, now) == Allowed(c, b2, ip, now)
    ensures Effective(AfterCheck(c, b1, ip, now), ip, t) == Effective(AfterCheck(c, b2, ip, now), ip, t)
  {
  }

  /** Checks of others and evictions leave it alone, up to the new floor. */
  lemma OtherEvents(c: Config, b: Buckets, e: Event, ip: IpAddr, t: nat)
    requires !(e.Check? && e.ip == ip) && (e.Cleanup? ==> e.maxIdle + c.window > 0)
    ensures Effective(After(c, b, e), ip, FloorAfter(c, t, e)) == Effective(b, ip, FloorAfter(c, t, e))
  {
  }

  lemma FloorRises(b1: Buckets, b2: Buckets, ip: IpAddr, t: nat, t': nat)
    requires t <= t' && Effective(b1, ip, t) == Effective(b2, ip, t)
    ensures Effective(b1, ip, t') == Effective(b2, ip, t')
  {
  }

  /** Two maps with the same effective TAT give `ip` the same decisions within the skew. */
  lemma {:induction false} AgreementDecides(c: Config, b1: Buckets, b2: Buckets, es: seq<Event>, ip: IpAddr, t: nat)
    requires WithinSkew(c, es, t) && PositiveRetention(c, es)
    requires Effective(b1, ip, t) == Effective(b2, ip, t)
    ensures Decisions(c, b1, es, ip) == Decisions(c, b2, Filter(es, ip), ip)
    decreases |es|
  {
    if es != [] {
      var e := es[0];
      var t' := FloorAfter(c, t, e);
      if e.Check? && e.ip == ip {
        assert Filter(es, ip) == [e] + Filter(es[1..], ip);
        assert Filter(es, ip)[1..] == Filter(es[1..], ip);
        CheckAgrees(c, b1, b2, ip, e.now, t);
        AgreementDecides(c, After(c, b1, e), After(c, b2, e), es[1..], ip, t);
      } else {
        assert Filter(es, ip) == Filter(es[1..], ip);
        assert e in es;
        FloorRises(b1, b2, ip, t, t');
        OtherEvents(c, b1, e, ip, t);
        AgreementDecides(c, After(c, b1, e), b2, es[1..], ip, t');
      }
    }
  }

  /** The run of `ip` alone: its own checks, no cleanups. */
  function Filter(es: seq<Event>, ip: IpAddr): seq<Event> {
    if es == [] then []
    else (if es[0].Check? && es[0].ip == ip then [es[0]] else []) + Filter(es[1..], ip)
  }

  /** Within the skew, interleaved clients and cleanups with positive retention change no
      decision: client `ip` fares as if its own checks were the whole run. */
  lemma IsolatedAndCleanupUnobservable(c: Config, b: Buckets, es: seq<Event>, ip: IpAddr)
    requires WithinSkew(c, es, 0) && PositiveRetention(c, es)
    ensures Decisions(c, b, es, ip) == Decisions(c, b, Filter(es, ip), ip)
  {
    AgreementDecides(c, b, b, es, ip, 0);
  }

  /** Monotone time has no skew. */
  lemma {:induction false} MonotoneIsWithinSkew(c: Config, es: seq<Event>, from: nat, floor: nat)
    requires NonDecreasing(es, from) && floor <= from
    ensures WithinSkew(c, es, floor)
    decreases |es|
  {
    if es != [] {
      MonotoneIsWithinSkew(c, es[1..], es[0].now, FloorAfter(c, floor, es[0]));
    }
  }

  /** Checks only, stamped `from` or later, in any order. */
  predicate ChecksFrom(es: seq<Event>, from: nat) {
    forall e <- es :: e.Check? && from <= e.now
  }

  lemma {:induction false} ChecksAreLate(c: Config, es: seq<Event>, from: nat, floor: nat, d: nat)
    requires ChecksFrom(es, from) && floor <= from + d
    ensures LateByAtMost(c, es, floor, d) && PositiveRetention(c, es)
    decreases |es|
  {
    if es != [] {
      ChecksAreLate(c, es[1..], from, floor, d);
    }
  }

  /** No later checks stamped `from` or later, in any order, tell the two maps apart. */
  ghost predicate Indistinguishable(c: Config, b1: Buckets, b2: Buckets, from: nat) {
    forall es: seq<Event>, ip: IpAddr :: ChecksFrom(es, from) ==> Decisions(c, b1, es, ip) == Decisions(c, b2, es, ip)
  }

  /** The bucket of `ip` has been idle for the retention time. */
  predicate Evicted(c: Config, b: Buckets, ip: IpAddr, now: nat, maxIdle: nat) {
    ip in b && Since(now, b[ip]) >= maxIdle + c.window
  }

  /** When an eviction pass is unobservable for checks stamped `from` or later, exactly: no
      evicted bucket is ahead of `from`. With a zero emission interval, buckets within the
      credit do not matter either, since they never move. */
  lemma CleanupUnobservableIff(c: Config, b: Buckets, now: nat, maxIdle: nat, from: nat)
    ensures Indistinguishable(c, b, AfterCleanup(c, b, now, maxIdle), from)
       <==> forall ip | Evicted(c, b, ip, now, maxIdle) ::
              b[ip] <= from || (c.emission == 0 && b[ip] <= from + c.credit)
  {
    var b' := AfterCleanup(c, b, now, maxIdle);
    if forall ip | Evicted(c, b, ip, now, maxIdle) :: b[ip] <= from || (c.emission == 0 && b[ip] <= from + c.credit) {
      forall es: seq<Event>, ip: IpAddr | ChecksFrom(es, from)
        ensures Decisions(c, b, es, ip) == Decisions(c, b', es, ip)
      {
        CannotTell(c, b, b', es, ip, from);
      }
    } else {
      var ip :| Evicted(c, b, ip, now, maxIdle) && b[ip] > from && !(c.emission == 0 && b[ip] <= from + c.credit);
      var es := Distinguish(c, b, b', ip, from);
      MonotoneChecks(es, from);
    }
  }

  /** So a pass with positive retention goes unnoticed by checks that are late by no more than
      the retention time. */
  lemma RetentionHidesCleanup(c: Config, b: Buckets, now: nat, maxIdle: nat, from: nat)
    requires maxIdle + c.window > 0 && now <= from + (maxIdle + c.window)
    ensures Indistinguishable(c, b, AfterCleanup(c, b, now, maxIdle), from)
  {
    CleanupUnobservableIff(c, b, now, maxIdle, from);
  }

  lemma {:induction false} MonotoneChecks(es: seq<Event>, from: nat)
    requires NonDecreasing(es, from) && ChecksOnly(es)
    ensures ChecksFrom(es, from)
    decreases |es|
  {
    if es != [] {
      MonotoneChecks(es[1..], es[0].now);
    }
  }

  /** Buckets that agree, or that are both within the credit and free of charge, decide alike. */
  lemma CannotTell(c: Config, b1: Buckets, b2: Buckets, es: seq<Event>, ip: IpAddr, from: nat)
    requires ChecksFrom(es, from)
    requires Effective(b1, ip, from) == Effective(b2, ip, from)
          || (c.emission == 0 && Max(Effective(b1, ip, from), Effective(b2, ip, from)) <= from + c.credit)
    ensures Decisions(c, b1, es, ip) == Decisions(c, b2, es, ip)
  {
    if Effective(b1, ip, from) == Effective(b2, ip, from) {
      ChecksAreLate(c, es, from, from, 0);
      AgreementDecides(c, b1, b2, es, ip, from);
      AgreementDecides(c, b2, b2, es, ip, from);
    } else {
      FreeOfCharge(c, b1, b2, es, ip, from);
    }
  }

  /** With a zero emission interval, two buckets within the credit pass every check, until they
      are overtaken and agree. */
  lemma {:induction false} FreeOfCharge(c: Config, b1: Buckets, b2: Buckets, es: seq<Event>, ip: IpAddr, t: nat)
    requires c.emission == 0 && ChecksFrom(es, t)
    requires Effective(b1, ip, t) <= t + c.credit && Effective(b2, ip, t) <= t + c.credit
    ensures Decisions(c, b1, es, ip) == Decisions(c, b2, es, ip)
    decreases |es|
  {
    if es != [] {
      var b1', b2' := After(c, b1, es[0]), After(c, b2, es[0]);
      if Effective(b1', ip, t) == Effective(b2', ip, t) {
        ChecksAreLate(c, es[1..], t, t, 0);
        AgreementDecides(c, b1', b2', es[1..], ip, t);
        AgreementDecides(c, b2', b2', es[1..], ip, t);
      } else {
        FreeOfCharge(c, b1', b2', es[1..], ip, t);
      }
    }
  }

  /** A run that tells a bucket ahead of another apart. */
  lemma {:induction false} Distinguish(c: Config, b1: Buckets, b2: Buckets, ip: IpAddr, now: nat)
    returns (es: seq<Event>)
    requires Effective(b1, ip, now) > Effective(b2, ip, now)
    requires c.emission > 0 || (Effective(b1, ip, now) > now + c.credit)
    ensures NonDecreasing(es, now) && ChecksOnly(es)
    ensures Decisions(c, b1, es, ip) != Decisions(c, b2, es, ip)
    decreases Max(now + c.credit - Effective(b1, ip, now) + 1, 0)
  {
    var e := Event.Check(ip, now);
    if !Allowed(c, b1, ip, now) && Allowed(c, b2, ip, now) {
      es := [e];
      assert Decisions(c, b1, es, ip)[0] != Decisions(c, b2, es, ip)[0];
    } else if !Allowed(c, b1, ip, now) {
      es := [Event.Check(ip, b2[ip] - c.credit)];
      assert Decisions(c, b1, es, ip)[0] != Decisions(c, b2, es, ip)[0];
    } else {
      var rest := Distinguish(c, After(c, b1, e), After(c, b2, e), ip, now);
      es := [e] + rest;
      assert es[1..] == rest;
      assert Decisions(c, b1, es, ip)[1..] == Decisions(c, After(c, b1, e), rest, ip);
      assert Decisions(c, b2, es, ip)[1..] == Decisions(c, After(c, b2, e), rest, ip);
    }
  }

  /** The decisions select the allowed timestamps from the arrivals. */
  lemma {:induction false} StampsFromDecisions(c: Config, b: Buckets, es: seq<Event>, ip: IpAddr)
    ensures |Decisions(c, b, es, ip)| == |Arrivals(es, ip)|
    ensures AllowedStamps(c, b, es, ip) == Selected(Arrivals(es, ip), Decisions(c, b, es, ip))
    decreases |es|
  {
    if es != [] {
      var b' := After(c, b, es[0]);
      StampsFromDecisions(c, b', es[1..], ip);
      if es[0].Check? && es[0].ip == ip {
        assert Arrivals(es, ip)[1..] == Arrivals(es[1..], ip);
        assert Decisions(c, b, es, ip)[1..] == Decisions(c, b', es[1..], ip);
      } else {
        assert Arrivals(es, ip) == Arrivals(es[1..], ip);
        assert Decisions(c, b, es, ip) == Decisions(c, b', es[1..], ip);
      }
    }
  }

  function Selected(ts: seq<nat>, ds: seq<bool>): seq<nat>
    requires |ts| == |ds|
  {
    if ts == [] then [] else (if ds[0] then [ts[0]] else []) + Selected(ts[1..], ds[1..])
  }

  lemma {:induction false} FilterKeepsArrivals(es: seq<Event>, ip: IpAddr)
    ensures ChecksOnly(Filter(es, ip)) && Arrivals(Filter(es, ip), ip) == Arrivals(es, ip)
  {
    if es != [] {
      FilterKeepsArrivals(es[1..], ip);
      if es[0].Check? && es[0].ip == ip {
        assert Filter(es, ip)[1..] == Filter(es[1..], ip);
      } else {
        assert Filter(es, ip) == Filter(es[1..], ip);
      }
    }
  }

  /** The window bound for all pairs of allowed stamps. */
  ghost predicate Conforms(c: Config, a: seq<nat>) {
    forall i, j :: 0 <= i <= j < |a| ==> (j - i) * c.emission + a[i] <= a[j] + c.credit
  }

  /** The window bound survives cleanups within the skew. */
  lemma WindowBoundWithCleanup(c: Config, b: Buckets, es: seq<Event>, ip: IpAddr)
    requires WithinSkew(c, es, 0) && PositiveRetention(c, es)
    ensures Conforms(c, AllowedStamps(c, b, es, ip))
  {
    FilterKeepsArrivals(es, ip);
    IsolatedAndCleanupUnobservable(c, b, es, ip);
    StampsFromDecisions(c, b, es, ip);
    StampsFromDecisions(c, b, Filter(es, ip), ip);
    var a := AllowedStamps(c, b, es, ip);
    forall i, j | 0 <= i <= j < |a| ensures (j - i) * c.emission + a[i] <= a[j] + c.credit {
      WindowBound(c, b, Filter(es, ip), ip, i, j);
    }
  }

  /** In particular when time is monotone. */
  lemma MonotoneRuns(c: Config, b: Buckets, es: seq<Event>, ip: IpAddr)
    requires NonDecreasing(es, 0) && PositiveRetention(c, es)
    ensures Decisions(c, b, es, ip) == Decisions(c, b, Filter(es, ip), ip)
    ensures Conforms(c, AllowedStamps(c, b, es, ip))
    ensures Decisions(c, map[], es, ip) == LeakyRun(c, Leaky(0, 0), Arrivals(es, ip))
  {
    MonotoneIsWithinSkew(c, es, 0, 0);
    IsolatedAndCleanupUnobservable(c, b, es, ip);
    WindowBoundWithCleanup(c, b, es, ip);
    RefinesLeakyBucket(c, es, ip);
  }

  // ---- Beyond the skew ----

  /** How late a check may be for an eviction, exactly: the window bound holds in every run in
      which no check is late by more than `d` if and only if `d` is zero, or emissions are free
      and `d` is within the tolerance. */
  lemma WindowBoundIff(c: Config, d: nat)
    ensures (forall es, ip | PositiveRetention(c, es) && LateByAtMost(c, es, 0, d) ::
               Conforms(c, AllowedStamps(c, map[], es, ip)))
       <==> d == 0 || (c.emission == 0 && d <= c.credit)
  {
    if d == 0 {
      forall es, ip | PositiveRetention(c, es) && LateByAtMost(c, es, 0, d)
        ensures Conforms(c, AllowedStamps(c, map[], es, ip))
      {
        WindowBoundWithCleanup(c, map[], es, ip);
      }
    } else if c.emission == 0 && d <= c.credit {
      forall es, ip | PositiveRetention(c, es) && LateByAtMost(c, es, 0, d)
        ensures Conforms(c, AllowedStamps(c, map[], es, ip))
      {
        FreeConforms(c, map[], es, ip, 0, d);
      }
    } else {
      var es := LateCheckBreaksBound(c, UNSPECIFIED, d, 1);
    }
  }

  /** Free emissions: what was allowed before stays within the tolerance of what is allowed
      later, through its bucket or through the floor. */
  lemma {:induction false} FreeStays(c: Config, b: Buckets, es: seq<Event>, ip: IpAddr, floor: nat,
                                   d: nat, m: nat, k: nat)
    requires c.emission == 0 && d <= c.credit && PositiveRetention(c, es) && LateByAtMost(c, es, floor, d)
    requires (ip in b && m <= b[ip]) || m <= floor
    requires k < |AllowedStamps(c, b, es, ip)|
    ensures m <= AllowedStamps(c, b, es, ip)[k] + c.credit
    decreases |es|
  {
    var e := es[0];
    assert e in es;
    var passes := e.Check? && e.ip == ip && Allowed(c, b, ip, e.now);
    if !passes || k > 0 {
      FreeStays(c, After(c, b, e), es[1..], ip, FloorAfter(c, floor, e), d, m, if passes then k - 1 else k);
    }
  }

  lemma {:induction false} FreeConforms(c: Config, b: Buckets, es: seq<Event>, ip: IpAddr, floor: nat, d: nat)
    requires c.emission == 0 && d <= c.credit && PositiveRetention(c, es) && LateByAtMost(c, es, floor, d)
    ensures Conforms(c, AllowedStamps(c, b, es, ip))
    decreases |es|
  {
    if es != [] {
      var b', floor' := After(c, b, es[0]), FloorAfter(c, floor, es[0]);
      var a, a' := AllowedStamps(c, b, es, ip), AllowedStamps(c, b', es[1..], ip);
      FreeConforms(c, b', es[1..], ip, floor', d);
      if a == [es[0].now] + a' && es[0].Check? && es[0].ip == ip && Allowed(c, b, ip, es[0].now) {
        forall k | 0 <= k < |a'| ensures a[0] <= a'[k] + c.credit {
          FreeStays(c, b', es[1..], ip, floor', d, a[0], k);
        }
        FreeCons(c, a[0], a');
      }
    }
  }

  lemma FreeCons(c: Config, t: nat, a: seq<nat>)
    requires c.emission == 0 && Conforms(c, a) && forall k :: 0 <= k < |a| ==> t <= a[k] + c.credit
    ensures Conforms(c, [t] + a)
  {
    forall i, j | 0 <= i <= j < |a| ensures a[i] <= a[j] + c.credit {
      assert (j - i) * c.emission + a[i] <= a[j] + c.credit;
    }
    var s := [t] + a;
    forall i, j | 0 <= i <= j < |s| ensures (j - i) * c.emission + s[i] <= s[j] + c.credit {
      assert (j - i) * c.emission == 0;
    }
  }

  lemma {:induction false} StampsConcat(c: Config, b: Buckets, x: seq<Event>, y: seq<Event>, ip: IpAddr)
    ensures AllowedStamps(c, b, x + y, ip) == AllowedStamps(c, b, x, ip) + AllowedStamps(c, AfterAll(c, b, x), y, ip)
    decreases |x|
  {
    if x == [] {
      assert x + y == y;
    } else {
      assert (x + y)[1..] == x[1..] + y;
      StampsConcat(c, After(c, b, x[0]), x[1..], y, ip);
    }
  }

  /** A burst within the tolerance is allowed as a whole. */
  lemma {:induction false} BurstStamps(c: Config, b: Buckets, ip: IpAddr, now: nat, ahead: nat, n: nat)
    requires 0 < n && Tat(b, ip, now) == now + ahead && ahead + Times(n - 1, c.emission) <= c.credit
    ensures |AllowedStamps(c, b, Simultaneous(ip, now, n), ip)| == n
    ensures var b' := AfterAll(c, b, Simultaneous(ip, now, n)); ip in b' && b'[ip] == now + ahead + Times(n, c.emission)
    decreases n
  {
    var es := Simultaneous(ip, now, n);
    var b' := AfterCheck(c, b, ip, now);
    assert es[1..] == Simultaneous(ip, now, n - 1);
    if n > 1 {
      BurstStamps(c, b', ip, now, ahead + c.emission, n - 1);
    }
  }

  /** Whenever the bound can fail, it does: for every tolerance and every positive retention time
      a run in which no check is late by more than `d`. */
  lemma LateCheckBreaksBound(c: Config, ip: IpAddr, d: nat, maxIdle: nat) returns (es: seq<Event>)
    requires 0 < maxIdle + c.window && (if c.emission == 0 then c.credit < d else 0 < d)
    ensures PositiveRetention(c, es) && LateByAtMost(c, es, 0, d)
    ensures !Conforms(c, AllowedStamps(c, map[], es, ip))
  {
    var b := Forgotten(c, ip, d, maxIdle);
    var tail;
    if c.emission == 0 {
      tail := [Event.Check(ip, 0)];
      assert tail[1..] == [];
      assert AllowedStamps(c, b, tail, ip) == [0];
    } else {
      tail := Burst(c, b, ip);
    }
    es := [Event.Check(ip, d), Event.Cleanup(d + c.emission + maxIdle + c.window, maxIdle)] + tail;
    HeadIsLate(c, ip, d, maxIdle, tail);
    StampsConcat(c, map[], es[..2], tail, ip);
    assert es == es[..2] + tail;
    FirstBreaks(c, d, AllowedStamps(c, b, tail, ip));
  }

  /** An allowed stamp too many after the last one that is forgotten. */
  lemma FirstBreaks(c: Config, t: nat, a: seq<nat>)
    requires a != [] && |a| * c.emission + t > a[|a| - 1] + c.credit
    ensures !Conforms(c, [t] + a)
  {
    var s := [t] + a;
    assert !((|a| - 0) * c.emission + s[0] <= s[|a|] + c.credit);
  }

  /** The bucket of the first check is evicted as soon as possible. */
  lemma Forgotten(c: Config, ip: IpAddr, d: nat, maxIdle: nat) returns (b: Buckets)
    ensures var head := [Event.Check(ip, d), Event.Cleanup(d + c.emission + maxIdle + c.window, maxIdle)];
            && b == AfterAll(c, map[], head) && ip !in b
            && AllowedStamps(c, map[], head, ip) == [d]
  {
    var x, y := Event.Check(ip, d), Event.Cleanup(d + c.emission + maxIdle + c.window, maxIdle);
    assert [x, y][1..] == [y] && [y][1..] == [];
    var b1 := After(c, map[], x);
    b := After(c, b1, y);
    assert AfterAll(c, b1, [y]) == b;
    assert AllowedStamps(c, b1, [y], ip) == [];
  }

  lemma HeadIsLate(c: Config, ip: IpAddr, d: nat, maxIdle: nat, tail: seq<Event>)
    requires 0 < maxIdle + c.window && ChecksFrom(tail, c.emission)
    ensures var es := [Event.Check(ip, d), Event.Cleanup(d + c.emission + maxIdle + c.window, maxIdle)] + tail;
            PositiveRetention(c, es) && LateByAtMost(c, es, 0, d)
  {
    var x, y := Event.Check(ip, d), Event.Cleanup(d + c.emission + maxIdle + c.window, maxIdle);
    var es := [x, y] + tail;
    ChecksAreLate(c, tail, c.emission, d + c.emission, d);
    assert es[1..] == [y] + tail && ([y] + tail)[1..] == tail;
    assert LateByAtMost(c, [y] + tail, 0, d);
  }

  /** A full burst of a new client, then one check as early as the tolerance admits. */
  lemma Burst(c: Config, b: Buckets, ip: IpAddr) returns (tail: seq<Event>)
    requires ip !in b && c.emission > 0
    ensures ChecksFrom(tail, c.emission)
    ensures var a := AllowedStamps(c, b, tail, ip); a != [] && |a| * c.emission == a[|a| - 1] + c.credit
  {
    var e := c.emission;
    var k := c.credit / e + 1;
    StepsWithin(c.credit, e);
    TimesIsProduct(k - 1, e);
    TimesIsProduct(k, e);
    var burst, last := Simultaneous(ip, e, k), Event.Check(ip, e + Times(k, e) - c.credit);
    tail := burst + [last];
    BurstStamps(c, b, ip, e, 0, k);
    SimultaneousChecks(ip, e, k);
    LastPasses(c, b, burst, last, ip);
    assert (k + 1) * e == k * e + e;
  }

  /** A check that finds its TAT at the limit of the tolerance passes. */
  lemma LastPasses(c: Config, b: Buckets, es: seq<Event>, last: Event, ip: IpAddr)
    requires last.Check? && last.ip == ip && Allowed(c, AfterAll(c, b, es), ip, last.now)
    ensures AllowedStamps(c, b, es + [last], ip) == AllowedStamps(c, b, es, ip) + [last.now]
  {
    StampsConcat(c, b, es, [last], ip);
    assert [last][1..] == [];
    assert AllowedStamps(c, AfterAll(c, b, es), [last], ip) == [last.now];
  }

  lemma {:induction false} SimultaneousChecks(ip: IpAddr, now: nat, n: nat)
    ensures ChecksFrom(Simultaneous(ip, now, n), now)
  {
    if n > 0 {
      SimultaneousChecks(ip, now, n - 1);
    }
  }

  // ---- Refinement of the continuous-state leaky bucket ----

  /** A bucket that drains one unit per nanosecond since the last conforming arrival. */
  datatype Leaky = Leaky(level: nat, last: nat)

  function Drained(l: Leaky, now: nat): nat {
    Max(l.level - (now - l.last), 0)
  }

  /** Annex A of ITU-T I.371: a conforming arrival adds the increment to the drained level. */
  function AfterArrival(c: Config, l: Leaky, now: nat): Leaky {
    if Drained(l, now) <= c.credit then Leaky(Drained(l, now) + c.emission, now) else l
  }

  function LeakyRun(c: Config, l: Leaky, ts: seq<nat>): seq<bool>
    decreases |ts|
  {
    if ts == [] then []
    else [Drained(l, ts[0]) <= c.credit] + LeakyRun(c, AfterArrival(c, l, ts[0]), ts[1..])
  }

  lemma {:induction false} Simulation(c: Config, b: Buckets, es: seq<Event>, ip: IpAddr, l: Leaky, t: nat)
    requires WithinSkew(c, es, t) && PositiveRetention(c, es)
    requires Effective(b, ip, t) == Max(l.level + l.last, t)
    ensures Decisions(c, b, es, ip) == LeakyRun(c, l, Arrivals(es, ip))
    decreases |es|
  {
    if es != [] {
      var e := es[0];
      assert e in es;
      var b', t' := After(c, b, e), FloorAfter(c, t, e);
      if e.Check? && e.ip == ip {
        assert Arrivals(es, ip)[1..] == Arrivals(es[1..], ip);
        LeakyCheck(c, b, ip, l, e.now, t);
        Simulation(c, b', es[1..], ip, AfterArrival(c, l, e.now), t);
      } else {
        assert Arrivals(es, ip) == Arrivals(es[1..], ip);
        OtherEvents(c, b, e, ip, t);
        Simulation(c, b', es[1..], ip, l, t');
      }
    }
  }

  lemma LeakyCheck(c: Config, b: Buckets, ip: IpAddr, l: Leaky, now: nat, t: nat)
    requires t <= now && Effective(b, ip, t) == Max(l.level + l.last, t)
    ensures Allowed(c, b, ip, now) <==> Drained(l, now) <= c.credit
    ensures var l' := AfterArrival(c, l, now); Effective(AfterCheck(c, b, ip, now), ip, t) == Max(l'.level + l'.last, t)
  {
  }

  /** The limiter refines one leaky bucket per client: over every run within the skew, with any
      interleaving of clients and cleanups, each client is decided by its own bucket. */
  lemma RefinesLeakyBucket(c: Config, es: seq<Event>, ip: IpAddr)
    requires WithinSkew(c, es, 0) && PositiveRetention(c, es)
    ensures Decisions(c, map[], es, ip) == LeakyRun(c, Leaky(0, 0), Arrivals(es, ip))
  {
    Simulation(c, map[], es, ip, Leaky(0, 0), 0);
  }
}
