/** The sliding-window rate limiter (`crates/iac-controlplane/src/rate_limit.rs`). Instants are ticks of a monotonic
    clock, counted from its origin. A caller reads `now` before it takes the lock, so that calls can be made in another
    order than their instants; how far behind an instant may be is the parameter `skew` of the statements about runs. */
module RateLimit {
  import opened Common

  /** Ticks per second. */
  const SECOND: nat := 1_000_000_000
  const WINDOW_SECS: nat := 60
  const WINDOW: nat := 60 * SECOND

  datatype Bucket = Bucket(kind: string, name: string)

  datatype TooMany = TooMany(bucket: Bucket, retryAfterSecs: nat)

  function KeyOf(b: Bucket): string {
    b.kind + ":" + b.name
  }

  /** The bucket types the limiter uses. */
  ghost const KINDS: set<string> := {"env", "policy", "agent", "login_user", "client", "register_ip"}

  lemma KindsHaveNoColon(kind: string)
    requires kind in KINDS
    ensures ':' !in kind
  {
  }

  /** Names may hold colons, yet two buckets never share a key. */
  lemma KeysDistinguishBuckets(a: Bucket, b: Bucket)
    requires a.kind in KINDS && b.kind in KINDS && KeyOf(a) == KeyOf(b)
    ensures a == b
  {
    KindsHaveNoColon(a.kind);
    KindsHaveNoColon(b.kind);
    var ka, kb := KeyOf(a), KeyOf(b);
    assert ka[|a.kind|] == ':' && kb[|b.kind|] == ':';
    assert forall i | 0 <= i < |a.kind| :: ka[i] == a.kind[i];
    assert forall i | 0 <= i < |b.kind| :: kb[i] == b.kind[i];
    assert |a.kind| == |b.kind|;
    assert a.kind == ka[..|a.kind|] && b.kind == kb[..|b.kind|];
    assert a.name == ka[|a.kind| + 1..] && b.name == kb[|b.kind| + 1..];
  }

  // ---- one queue ----

  /** Position of the first entry, from `i` on, that is still in the window. Nothing leaves it before the clock has run
      for a window. */
  ghost function FirstKept(q: seq<nat>, now: nat, i: nat): (k: nat)
    requires i <= |q|
    ensures i <= k <= |q|
    decreases |q| - i
  {
    if i < |q| && q[i] + WINDOW < now then FirstKept(q, now, i + 1) else i
  }

  lemma {:induction false} FirstKeptExactly(q: seq<nat>, now: nat, i: nat)
    requires i <= |q|
    ensures forall j | i <= j < FirstKept(q, now, i) :: q[j] + WINDOW < now
    ensures FirstKept(q, now, i) < |q| ==> q[FirstKept(q, now, i)] + WINDOW >= now
    decreases |q| - i
  {
    if i < |q| && q[i] + WINDOW < now {
      FirstKeptExactly(q, now, i + 1);
    }
  }

  /** Drop the front while it is older than the window. */
  ghost function Prune(q: seq<nat>, now: nat): seq<nat> {
    q[FirstKept(q, now, 0)..]
  }

  /** Pruning drops from the front exactly up to the first entry that is at most 60 seconds old. */
  lemma PruneExactly(q: seq<nat>, now: nat) returns (k: nat)
    ensures k <= |q| && Prune(q, now) == q[k..]
    ensures forall j | 0 <= j < k :: q[j] + 60_000_000_000 < now
    ensures k < |q| ==> q[k] + 60_000_000_000 >= now
  {
    k := FirstKept(q, now, 0);
    FirstKeptExactly(q, now, 0);
  }

  /** Seconds until the oldest entry leaves the window, at least 1. */
  function RetryAfter(q: seq<nat>, now: nat): nat {
    var waited := if q == [] || now <= q[0] then 0 else (now - q[0]) / SECOND;
    var left := if waited >= WINDOW_SECS then 0 else WINDOW_SECS - waited;
    if left == 0 then 1 else left
  }

  ghost predicate Admits(q: seq<nat>, cap: nat, now: nat) {
    |Prune(q, now)| < cap
  }

  ghost function Recorded(q: seq<nat>, cap: nat, now: nat): seq<nat> {
    if Admits(q, cap, now) then Prune(q, now) + [now] else Prune(q, now)
  }

  // ---- runs on one bucket ----

  datatype Call = Call(at: nat, cap: nat)

  /** The queue after the calls, each with the cap in force when it was made. */
  ghost function QueueAfter(calls: seq<Call>): seq<nat> {
    if calls == [] then []
    else Recorded(QueueAfter(calls[..|calls| - 1]), calls[|calls| - 1].cap, calls[|calls| - 1].at)
  }

  /** The calls that were admitted. */
  ghost function Admitted(calls: seq<Call>): seq<Call> {
    if calls == [] then []
    else
      var before, last := calls[..|calls| - 1], calls[|calls| - 1];
      Admitted(before) + (if Admits(QueueAfter(before), last.cap, last.at) then [last] else [])
  }

  /** No call's instant is more than `skew` behind that of a call made before it. */
  ghost predicate SkewAtMost(calls: seq<Call>, skew: nat) {
    forall i, j | 0 <= i < j < |calls| :: calls[i].at <= calls[j].at + skew
  }

  ghost predicate NoneAfter(calls: seq<Call>, t: nat) {
    forall i | 0 <= i < |calls| :: calls[i].at <= t
  }

  /** `q` lists the instants of the last admissions in `a`. */
  ghost predicate IsTailOf(q: seq<nat>, a: seq<Call>) {
    |q| <= |a| && forall i | 0 <= i < |q| :: q[i] == a[|a| - |q| + i].at
  }

  /** The queue is the most recent admissions, and every older one had left the window by `t`. */
  ghost predicate QueueSound(a: seq<Call>, q: seq<nat>, t: nat) {
    && IsTailOf(q, a)
    && (forall i | 0 <= i < |a| - |q| :: a[i].at + WINDOW < t)
  }

  /** Pruning drops only what has left the window by `now`, from the front. */
  lemma PruneKeepsSound(a: seq<Call>, q: seq<nat>, now: nat, t: nat)
    requires QueueSound(a, q, t) && now <= t
    ensures QueueSound(a, Prune(q, now), t)
  {
    var k := FirstKept(q, now, 0);
    FirstKeptExactly(q, now, 0);
    forall i | 0 <= i < |a| - |Prune(q, now)|
      ensures a[i].at + WINDOW < t
    {
      if i >= |a| - |q| {
        assert a[i].at == q[i - (|a| - |q|)];
      }
    }
  }

  lemma RecordingKeepsSound(a: seq<Call>, q: seq<nat>, call: Call, t: nat)
    requires QueueSound(a, q, t)
    ensures QueueSound(a + [call], q + [call.at], t)
  {
  }

  lemma {:induction false} AdmittedNoneAfter(calls: seq<Call>, t: nat)
    requires NoneAfter(calls, t)
    ensures NoneAfter(Admitted(calls), t)
  {
    if calls != [] {
      AdmittedNoneAfter(calls[..|calls| - 1], t);
    }
  }

  lemma {:induction false} AdmittedSkew(calls: seq<Call>, skew: nat)
    requires SkewAtMost(calls, skew)
    ensures SkewAtMost(Admitted(calls), skew)
  {
    if calls != [] {
      var before, last := calls[..|calls| - 1], calls[|calls| - 1];
      AdmittedSkew(before, skew);
      AdmittedNoneAfter(before, last.at + skew);
    }
  }

  lemma {:induction false} QueueAlwaysSound(calls: seq<Call>, t: nat)
    requires NoneAfter(calls, t)
    ensures QueueSound(Admitted(calls), QueueAfter(calls), t)
  {
    if calls != [] {
      var before, last := calls[..|calls| - 1], calls[|calls| - 1];
      QueueAlwaysSound(before, t);
      PruneKeepsSound(Admitted(before), QueueAfter(before), last.at, t);
      RecordingKeepsSound(Admitted(before), Prune(QueueAfter(before), last.at), last, t);
      assert Admitted(before) + [] == Admitted(before);
    }
  }

  /** After pruning, the queue is a run's last admissions: none that was dropped is in the window, none that was kept
      is out of it, give or take the skew. Without skew it is exactly the admissions in the window. */
  lemma PrunedQueueIsTheWindow(calls: seq<Call>, now: nat, skew: nat)
    requires SkewAtMost(calls, skew) && NoneAfter(calls, now + skew)
    ensures
      var a, p := Admitted(calls), Prune(QueueAfter(calls), now);
      && IsTailOf(p, a)
      && (forall i | 0 <= i < |a| - |p| :: a[i].at + WINDOW < now + skew)
      && (forall i | |a| - |p| <= i < |a| :: now <= a[i].at + WINDOW + skew)
  {
    DroppedHaveLeft(calls, now, now + skew);
    AdmittedSkew(calls, skew);
    KeptAreInside(Admitted(calls), QueueAfter(calls), now, skew);
  }

  lemma DroppedHaveLeft(calls: seq<Call>, now: nat, t: nat)
    requires NoneAfter(calls, t) && now <= t
    ensures QueueSound(Admitted(calls), Prune(QueueAfter(calls), now), t)
  {
    QueueAlwaysSound(calls, t);
    PruneKeepsSound(Admitted(calls), QueueAfter(calls), now, t);
  }

  lemma KeptAreInside(a: seq<Call>, q: seq<nat>, now: nat, skew: nat)
    requires SkewAtMost(a, skew) && IsTailOf(Prune(q, now), a)
    ensures forall i | |a| - |Prune(q, now)| <= i < |a| :: now <= a[i].at + WINDOW + skew
  {
    var p := Prune(q, now);
    FirstKeptExactly(q, now, 0);
    if p != [] {
      assert p[0] == q[FirstKept(q, now, 0)] && a[|a| - |p|].at == p[0];
    }
  }

  // ---- how many calls a window admits ----

  /** `c` falls in the closed window of length `length` from `from` on. */
  predicate InWindow(c: Call, from: nat, length: nat) {
    from <= c.at <= from + length
  }

  ghost function CountInWindow(a: seq<Call>, from: nat, length: nat): nat {
    if a == [] then 0
    else
      CountInWindow(a[..|a| - 1], from, length) + (if InWindow(a[|a| - 1], from, length) then 1 else 0)
  }

  lemma {:induction false} CountTail(a: seq<Call>, from: nat, length: nat, n: nat)
    requires forall i | 0 <= i < |a| - n :: !InWindow(a[i], from, length)
    ensures CountInWindow(a, from, length) <= n
    decreases |a|
  {
    if a != [] {
      CountTail(a[..|a| - 1], from, length, if n == 0 then 0 else n - 1);
    }
  }

  /** Over any run, any changes of the cap and any order of the instants, a closed window of 60 seconds less the skew
      admits at most as many calls as the largest cap in force for one of them. */
  lemma {:induction false} WindowBound(calls: seq<Call>, skew: nat, from: nat, cap: nat)
    requires SkewAtMost(calls, skew) && skew <= WINDOW
    requires forall c | c in Admitted(calls) && InWindow(c, from, WINDOW - skew) :: c.cap <= cap
    ensures CountInWindow(Admitted(calls), from, WINDOW - skew) <= cap
  {
    if calls != [] {
      var before, last := calls[..|calls| - 1], calls[|calls| - 1];
      var a := Admitted(before);
      AdmittedGrow(calls);
      WindowBound(before, skew, from, cap);
      if Admits(QueueAfter(before), last.cap, last.at) {
        CountSnoc(a, last, from, WINDOW - skew);
        if InWindow(last, from, WINDOW - skew) {
          CountBeforeAdmission(before, last, skew, from);
        }
      }
    }
  }

  lemma AdmittedGrow(calls: seq<Call>)
    requires calls != []
    ensures
      var before, last := calls[..|calls| - 1], calls[|calls| - 1];
      && (forall c | c in Admitted(before) :: c in Admitted(calls))
      && (if Admits(QueueAfter(before), last.cap, last.at) then
            Admitted(calls) == Admitted(before) + [last] && last in Admitted(calls)
          else Admitted(calls) == Admitted(before))
  {
  }

  lemma CountSnoc(a: seq<Call>, c: Call, from: nat, length: nat)
    ensures CountInWindow(a + [c], from, length) == CountInWindow(a, from, length)
        + if InWindow(c, from, length) then 1 else 0
  {
    assert (a + [c])[..|a|] == a;
  }

  /** All earlier admissions in the window of a new one are in the queue that was judged. */
  lemma CountBeforeAdmission(before: seq<Call>, last: Call, skew: nat, from: nat)
    requires NoneAfter(before, last.at + skew) && skew <= WINDOW && InWindow(last, from, WINDOW - skew)
    ensures CountInWindow(Admitted(before), from, WINDOW - skew) <= |Prune(QueueAfter(before), last.at)|
  {
    DroppedHaveLeft(before, last.at, last.at + skew);
    CountTail(Admitted(before), from, WINDOW - skew, |Prune(QueueAfter(before), last.at)|);
  }

  /** No run whose instants are out of order by at most `skew` admits, in any closed window of that length, more calls
      than the largest cap in force for one of them. */
  ghost predicate BoundHolds(skew: nat, length: nat) {
    forall calls, from: nat, cap: nat | SkewAtMost(calls, skew) && CapsWithin(calls, from, length, cap) ::
      CountInWindow(Admitted(calls), from, length) <= cap
  }

  ghost predicate CapsWithin(calls: seq<Call>, from: nat, length: nat, cap: nat) {
    forall c | c in Admitted(calls) && InWindow(c, from, length) :: c.cap <= cap
  }

  /** The windows in which the cap holds are exactly those that, with the skew, are no longer than 60 seconds. */
  lemma WindowBoundExactly(skew: nat, length: nat)
    ensures
      var bounded := BoundHolds(skew, length);
      bounded <==> length + skew <= WINDOW
  {
    if length + skew <= WINDOW {
      forall calls, from: nat, cap: nat | SkewAtMost(calls, skew) && CapsWithin(calls, from, length, cap)
        ensures CountInWindow(Admitted(calls), from, length) <= cap
      {
        WindowBound(calls, WINDOW - length, from, cap);
      }
    } else if length <= WINDOW {
      var r := LateRun(WINDOW + 1 - length);
      TheSkewCounts(WINDOW + 1 - length);
      assert SkewAtMost(r, skew) && CapsWithin(r, 0, length, 2);
    } else {
      var r := [Call(0, 1), Call(WINDOW + 1, 1)];
      OneAfterTheOther(r[0], r[1], length);
      assert r == [r[0], r[1]] && SkewAtMost(r, skew) && CapsWithin(r, 0, length, 1);
    }
  }

  lemma OneAfterTheOther(a: Call, b: Call, length: nat)
    requires a.at == 0 && a.cap == 1 && b.cap == 1 && WINDOW < b.at <= length
    ensures Admitted([a, b]) == [a, b] && CountInWindow(Admitted([a, b]), 0, length) == 2
  {
    OneTaken(a);
    TakesCall([a], [a.at], b, 1);
    assert [a] + [b] == [a, b];
    CountSnoc([], a, 0, length);
    CountSnoc([a], b, 0, length);
  }

  /** The run of `TheSkewCounts`: two calls fill the cap, a third comes just after they have left the window, and a
      fourth whose instant was read earlier. */
  function LateRun(skew: nat): seq<Call>
    requires 0 < skew <= WINDOW + 1
  {
    [Call(0, 2), Call(0, 2), Call(WINDOW + 1, 2), Call(WINDOW + 1 - skew, 2)]
  }

  /** For every skew, under a cap of two, a window one tick longer than `WindowBound` allows admits three calls. With
      one tick of skew that is the window of 60 seconds. */
  lemma TheSkewCounts(skew: nat)
    requires 0 < skew <= WINDOW + 1
    ensures SkewAtMost(LateRun(skew), skew) && forall c | c in Admitted(LateRun(skew)) :: c.cap == 2
    ensures CountInWindow(Admitted(LateRun(skew)), 0, WINDOW + 1 - skew) == 3
  {
    var r := LateRun(skew);
    AllFourAdmitted(r[0], r[1], r[2], r[3]);
    ThreeOfFour(r[0], r[1], r[2], r[3], 0, WINDOW + 1 - skew);
    assert r == [r[0], r[1], r[2], r[3]];
  }

  lemma AllFourAdmitted(a: Call, b: Call, c: Call, d: Call)
    requires a.cap >= 2 && b.cap >= 2 && c.cap >= 2 && d.cap >= 2
    requires a.at == b.at && a.at + WINDOW < c.at && d.at <= c.at + WINDOW
    ensures Admitted([a, b, c, d]) == [a, b, c, d]
  {
    TwoAtOnce(a, b);
    TwoAfterwards([a, b], [a.at, b.at], c, d);
    assert [a, b] + [c, d] == [a, b, c, d];
  }

  lemma TwoAtOnce(a: Call, b: Call)
    requires a.cap >= 2 && b.cap >= 2 && a.at == b.at
    ensures AllTaken([a, b], [a.at, b.at])
  {
    OneTaken(a);
    OneBehindOne([a], a.at, b);
    assert [a] + [b] == [a, b];
  }

  lemma OneTaken(a: Call)
    requires a.cap >= 1
    ensures AllTaken([a], [a.at])
  {
    TakesCall([], [], a, 0);
    assert [] + [a] == [a] && [][0..] + [a.at] == [a.at];
  }

  /** Two more calls, the first of which finds the whole queue expired. */
  lemma TwoAfterwards(calls: seq<Call>, q: seq<nat>, c: Call, d: Call)
    requires AllTaken(calls, q) && c.cap >= 2 && d.cap >= 2 && d.at <= c.at + WINDOW
    requires forall j | 0 <= j < |q| :: q[j] + WINDOW < c.at
    ensures AllTaken(calls + [c, d], [c.at, d.at])
  {
    TakesCall(calls, q, c, |q|);
    assert q[|q|..] + [c.at] == [c.at];
    OneBehindOne(calls + [c], c.at, d);
    assert calls + [c] + [d] == calls + [c, d];
  }

  lemma OneBehindOne(calls: seq<Call>, t: nat, d: Call)
    requires AllTaken(calls, [t]) && d.cap >= 2 && d.at <= t + WINDOW
    ensures AllTaken(calls + [d], [t, d.at])
  {
    TakesCall(calls, [t], d, 0);
    assert [t][0..] + [d.at] == [t, d.at];
  }

  lemma ThreeOfFour(a: Call, b: Call, c: Call, d: Call, from: nat, length: nat)
    requires InWindow(a, from, length) && InWindow(b, from, length) && InWindow(d, from, length)
    requires !InWindow(c, from, length)
    ensures CountInWindow([a, b, c, d], from, length) == 3
  {
    CountSnoc([], a, from, length);
    CountSnoc([a], b, from, length);
    CountSnoc([a, b], c, from, length);
    CountSnoc([a, b, c], d, from, length);
    assert [] + [a] == [a] && [a] + [b] == [a, b] && [a, b] + [c] == [a, b, c] && [a, b, c] + [d] == [a, b, c, d];
  }

  lemma PruneDrops(q: seq<nat>, now: nat, k: nat)
    requires k <= |q| && (forall j | 0 <= j < k :: q[j] + WINDOW < now) && (k < |q| ==> q[k] + WINDOW >= now)
    ensures Prune(q, now) == q[k..]
  {
    FirstKeptExactly(q, now, 0);
  }

  /** All calls were admitted, and `q` is the queue they left. */
  ghost predicate AllTaken(calls: seq<Call>, q: seq<nat>) {
    QueueAfter(calls) == q && Admitted(calls) == calls
  }

  /** A call that drops `k` entries and finds room. */
  lemma TakesCall(calls: seq<Call>, q: seq<nat>, call: Call, k: nat)
    requires AllTaken(calls, q) && k <= |q| && |q| - k < call.cap
    requires (forall j | 0 <= j < k :: q[j] + WINDOW < call.at) && (k < |q| ==> q[k] + WINDOW >= call.at)
    ensures AllTaken(calls + [call], q[k..] + [call.at])
  {
    PruneDrops(q, call.at, k);
    assert (calls + [call])[..|calls|] == calls;
  }

  // ---- the promise of `retry_after_secs` ----

  /** A rejected call is told to wait 1 to 60 seconds. With no other admission, a call at a later instant is admitted
      if and only if the entries that keep the bucket full have all left the window. If the queue was within the cap
      and its oldest entry not in the future, that is so at every instant past the wait. */
  lemma RetryAfterExactly(q: seq<nat>, cap: nat, now: nat, later: nat)
    requires cap > 0 && !Admits(q, cap, now)
    ensures
      var p := Prune(q, now);
      && 1 <= RetryAfter(p, now) <= 60
      && (Admits(p, cap, later) <==> forall i | 0 <= i <= |p| - cap :: p[i] + WINDOW < later)
      && (|q| <= cap && p[0] <= now && later > now + RetryAfter(p, now) * SECOND ==> Admits(p, cap, later))
  {
    var p := Prune(q, now);
    FirstKeptExactly(q, now, 0);
    FirstKeptExactly(p, later, 0);
    assert p[0] == q[FirstKept(q, now, 0)];
    if p[0] <= now {
      WaitCoversFront(p, now);
    }
  }

  /** The wait is the least number of whole seconds, at least one, after which the oldest entry can have left. */
  lemma WaitIsLeast(q: seq<nat>, now: nat, n: nat)
    requires q != [] && q[0] <= now <= q[0] + 60_000_000_000
    ensures RetryAfter(q, now) == n <==>
            && n >= 1 && now + n * 1_000_000_000 >= q[0] + 60_000_000_000
            && (n > 1 ==> now + (n - 1) * 1_000_000_000 < q[0] + 60_000_000_000)
  {
    var waited := (now - q[0]) / SECOND;
    assert waited * SECOND <= now - q[0] < waited * SECOND + SECOND;
  }

  /** With nothing to go by, or an oldest entry in the future, it is 60 seconds. */
  lemma WaitWithoutFront(q: seq<nat>, now: nat)
    requires q == [] || now < q[0]
    ensures RetryAfter(q, now) == 60
  {
  }

  lemma WaitCoversFront(p: seq<nat>, now: nat)
    requires p != [] && p[0] <= now <= p[0] + WINDOW
    ensures 1 <= RetryAfter(p, now) <= 60
    ensures now + RetryAfter(p, now) * SECOND >= p[0] + WINDOW
  {
    var waited := (now - p[0]) / SECOND;
    assert waited * SECOND <= now - p[0] < waited * SECOND + SECOND;
  }

  /** While no earlier cap exceeded `cap`, the queue is no longer than `cap`. */
  lemma {:induction false} QueueWithinCaps(calls: seq<Call>, cap: nat)
    requires forall i | 0 <= i < |calls| :: calls[i].cap <= cap
    ensures |QueueAfter(calls)| <= cap
  {
    if calls != [] {
      QueueWithinCaps(calls[..|calls| - 1], cap);
    }
  }

  /** A client that waits as told, and for the skew, is served, provided the cap has not been lowered. */
  lemma WaitingIsEnough(calls: seq<Call>, skew: nat, cap: nat, now: nat, later: nat)
    requires NoneAfter(calls, now + skew) && forall i | 0 <= i < |calls| :: calls[i].cap <= cap
    requires cap > 0 && !Admits(QueueAfter(calls), cap, now)
    requires later > now + skew + RetryAfter(Prune(QueueAfter(calls), now), now) * SECOND
    ensures Admits(QueueAfter(calls + [Call(now, cap)]), cap, later)
  {
    OneMoreCall(calls, Call(now, cap));
    var q, p := QueueAfter(calls), Prune(QueueAfter(calls), now);
    QueueWithinCaps(calls, cap);
    RetryAfterExactly(q, cap, now, later);
    FrontIsNoLater(calls, now, now + skew);
  }

  lemma FrontIsNoLater(calls: seq<Call>, now: nat, t: nat)
    requires NoneAfter(calls, t) && now <= t && Prune(QueueAfter(calls), now) != []
    ensures Prune(QueueAfter(calls), now)[0] <= t
  {
    DroppedHaveLeft(calls, now, t);
    AdmittedNoneAfter(calls, t);
    var p, a := Prune(QueueAfter(calls), now), Admitted(calls);
    assert p[0] == a[|a| - |p|].at;
  }

  /** After the cap has been lowered the wait can be too short: of two entries only the older one leaves in time. */
  lemma LoweredCapOutlastsTheWait() returns (calls: seq<Call>, cap: nat, now: nat, later: nat)
    ensures SkewAtMost(calls, 0) && NoneAfter(calls, now)
    ensures cap > 0 && !Admits(QueueAfter(calls), cap, now)
    ensures later > now + RetryAfter(Prune(QueueAfter(calls), now), now) * SECOND
    ensures !Admits(QueueAfter(calls + [Call(now, cap)]), cap, later)
  {
    var one := [Call(0, 2)];
    calls := [Call(0, 2), Call(50 * SECOND, 2)];
    cap, now, later := 1, 55 * SECOND, 61 * SECOND;
    var q := [0, 50 * SECOND];
    assert one[..|one| - 1] == [] && calls[..|calls| - 1] == one;
    assert FirstKept([], 0, 0) == 0 && QueueAfter(one) == [0];
    assert FirstKept([0], 50 * SECOND, 0) == 0 && QueueAfter(calls) == q;
    assert FirstKept(q, now, 0) == 0 && Prune(q, now) == q;
    assert RetryAfter(q, now) == 5;
    assert (calls + [Call(now, 1)])[..|calls|] == calls;
    assert QueueAfter(calls + [Call(now, 1)]) == q;
    assert FirstKept(q, later, 0) == 1;
  }

  // ---- the limiter ----

  type Queues = map<string, seq<nat>>

  function QueueOf(state: Queues, key: string): seq<nat> {
    if key in state then state[key] else []
  }

  /** Each key's queue pruned in turn; a key seen for the first time gets an empty queue. */
  ghost function PrunedAll(state: Queues, keys: seq<string>, now: nat): Queues {
    if keys == [] then state
    else
      var before, key := PrunedAll(state, keys[..|keys| - 1], now), keys[|keys| - 1];
      before[key := Prune(QueueOf(before, key), now)]
  }

  /** `now` pushed once for each key in turn. */
  ghost function PushedAll(state: Queues, keys: seq<string>, now: nat): Queues {
    if keys == [] then state
    else
      var before, key := PushedAll(state, keys[..|keys| - 1], now), keys[|keys| - 1];
      before[key := QueueOf(before, key) + [now]]
  }

  /** The state after a single check on one key. */
  ghost function SingleCheck(state: Queues, key: string, cap: nat, now: nat): Queues {
    state[key := Recorded(QueueOf(state, key), cap, now)]
  }

  /** The state after single checks one after another. */
  ghost function SinglesInTurn(state: Queues, keys: seq<string>, caps: seq<nat>, now: nat): Queues
    requires |keys| == |caps|
  {
    if keys == [] then state
    else
      var last := |keys| - 1;
      SingleCheck(SinglesInTurn(state, keys[..last], caps[..last], now), keys[last], caps[last], now)
  }

  datatype Config = Config(operations: Option<nat>, agents: Option<nat>, loginUser: Option<nat>,
    loginIp: Option<nat>, registerIp: Option<nat>)

  /** Every cap as configured, an absent one as 0. */
  lemma NormExactly(n: nat)
    ensures Norm(Some(n)) == n && Norm(None) == 0
  {
  }

  /** An absent cap is stored as 0, which disables the check. */
  function Norm(cap: Option<nat>): nat {
    if cap.Some? then cap.value else 0
  }

  class RateLimiter {
    var maxPerMinute: nat
    var agentMax: nat
    var loginUserMax: nat
    var loginIpMax: nat
    var registerIpMax: nat
    var state: Queues
    var checksTotal: nat
    var rejectedTotal: nat

    constructor (cfg: Config)
      ensures state == map[] && checksTotal == 0 && rejectedTotal == 0
      ensures maxPerMinute == Norm(cfg.operations) && agentMax == Norm(cfg.agents)
          && loginUserMax == Norm(cfg.loginUser)
      ensures loginIpMax == Norm(cfg.loginIp) && registerIpMax == Norm(cfg.registerIp)
    {
      maxPerMinute, agentMax, loginUserMax := Norm(cfg.operations), Norm(cfg.agents), Norm(cfg.loginUser);
      loginIpMax, registerIpMax := Norm(cfg.loginIp), Norm(cfg.registerIp);
      state, checksTotal, rejectedTotal := map[], 0, 0;
    }

    /** New caps; the queues keep their history. */
    method ApplyConfig(cfg: Config)
      modifies `maxPerMinute, `agentMax, `loginUserMax, `loginIpMax, `registerIpMax
      ensures maxPerMinute == Norm(cfg.operations) && agentMax == Norm(cfg.agents)
          && loginUserMax == Norm(cfg.loginUser)
      ensures loginIpMax == Norm(cfg.loginIp) && registerIpMax == Norm(cfg.registerIp)
    {
      maxPerMinute, agentMax, loginUserMax := Norm(cfg.operations), Norm(cfg.agents), Norm(cfg.loginUser);
      loginIpMax, registerIpMax := Norm(cfg.loginIp), Norm(cfg.registerIp);
    }

    /** Pop expired entries off the front of one queue. */
    method PruneQueue(key: string, now: nat) returns (q: seq<nat>)
      modifies `state
      ensures q == Prune(QueueOf(old(state), key), now) && state == old(state)[key := q]
    {
      q := QueueOf(state, key);
      ghost var all, n := q, 0;
      if now >= WINDOW {
        var cutoff := now - WINDOW;
        while q != [] && q[0] < cutoff
          invariant n <= |all| && q == all[n..]
          invariant FirstKept(all, now, n) == FirstKept(all, now, 0)
        {
          q := q[1..];
          n := n + 1;
        }
      }
      assert FirstKept(all, now, n) == n;
      state := state[key := q];
    }

    /** One check: admitted and recorded if fewer than `max` entries are left in the window. */
    method CheckAndRecordKeyedAt(bucket: Bucket, max: nat, now: nat) returns (r: Result<(), TooMany>)
      modifies `state, `checksTotal, `rejectedTotal
      ensures r.Ok? <==> |Prune(QueueOf(old(state), KeyOf(bucket)), now)| < max
      ensures
        var p := Prune(QueueOf(old(state), KeyOf(bucket)), now);
        QueueOf(state, KeyOf(bucket)) == if r.Ok? then p + [now] else p
      ensures forall key | key != KeyOf(bucket) :: QueueOf(state, key) == QueueOf(old(state), key)
      ensures state == SingleCheck(old(state), KeyOf(bucket), max, now)
      ensures r.Err? ==> r.error == TooMany(bucket, RetryAfter(Prune(QueueOf(old(state), KeyOf(bucket)), now), now))
      ensures checksTotal == old(checksTotal) + 1
      ensures rejectedTotal == old(rejectedTotal) + if r.Err? then 1 else 0
    {
      checksTotal := checksTotal + 1;
      var key := KeyOf(bucket);
      var q := PruneQueue(key, now);
      if |q| >= max {
        rejectedTotal := rejectedTotal + 1;
        return Err(TooMany(bucket, RetryAfter(q, now)));
      }
      state := state[key := q + [now]];
      return Ok(());
    }

    /** Every public check of one bucket: a cap of 0 admits without looking or recording. */
    method CheckUnlessDisabled(bucket: Bucket, max: nat, now: nat) returns (r: Result<(), TooMany>)
      modifies `state, `checksTotal, `rejectedTotal
      ensures max == 0 ==>
                && r.Ok? && state == old(state)
                && checksTotal == old(checksTotal) && rejectedTotal == old(rejectedTotal)
      ensures max > 0 ==>
                && (r.Ok? <==> Admits(QueueOf(old(state), KeyOf(bucket)), max, now))
                && state == StepState(old(state), Check(bucket, Call(now, max)))
    {
      if max == 0 {
        return Ok(());
      }
      r := CheckAndRecordKeyedAt(bucket, max, now);
    }

    /** All policies or none: every bucket must accept before any records. */
    method CheckAndRecordPolicies(policies: seq<(string, nat)>, now: nat) returns (r: Result<(), TooMany>)
      modifies `state, `checksTotal, `rejectedTotal
      ensures
        var active := Active(policies);
        var n := AdmittedFirst(old(state), active, now);
        && checksTotal == old(checksTotal) + (if r.Ok? then n else n + 1)
        && rejectedTotal == old(rejectedTotal) + (if r.Ok? then 0 else 1)
        && (r.Ok? <==> n == |active|)
        && state == BatchStep(old(state), policies, now)
        && (r.Err? ==> r.error == Refusal(old(state), active[n], now))
      ensures r.Ok? <==> forall i | 0 <= i < |policies| && policies[i].1 > 0 :: HasRoom(old(state), policies[i], now)
      ensures r.Ok? && EnabledOnce(policies) ==> ChargedExactly(old(state), state, policies, now)
      ensures r.Err? ==> exists i: nat :: RefusedBy(old(state), policies, i, now, r.error)
      ensures r.Err? ==> OnlyPruned(old(state), state, now)
    {
      BatchOverPolicies(state, policies, now);
      var active := FilterActive(policies);
      BatchStepByPhases(state, policies, now);
      r := CheckAll(active, now);
      if r.Ok? {
        PushAll(active, now);
      }
    }

    /** Phase one: prune every bucket in turn, stopping at the first that is full. */
    method CheckAll(active: seq<(string, nat)>, now: nat) returns (r: Result<(), TooMany>)
      modifies `state, `checksTotal, `rejectedTotal
      ensures
        var n := AdmittedFirst(old(state), active, now);
        && checksTotal == old(checksTotal) + (if r.Ok? then n else n + 1)
        && rejectedTotal == old(rejectedTotal) + (if r.Ok? then 0 else 1)
        && (r.Ok? <==> n == |active|)
        && state == PhaseOne(old(state), active, if r.Ok? then n else n + 1, now)
        && (r.Err? ==> r.error == Refusal(old(state), active[n], now))
    {
      ghost var start := state;
      PhaseOneEnds(start, active, now);
      r := Ok(());
      for i := 0 to |active|
        invariant r == Ok(())
        invariant state == PhaseOne(start, active, i, now)
        invariant AdmittedFirst(start, active[..i], now) == i
        invariant checksTotal == old(checksTotal) + i && rejectedTotal == old(rejectedTotal)
      {
        PhaseOneStep(start, active, i, now);
        AdmittedFirstStep(start, active, i, now);
        r := CheckOne(active[i], now);
        if r.Err? {
          return;
        }
      }
    }

    /** One bucket of phase one: pruned, judged, not yet charged. */
    method CheckOne(p: (string, nat), now: nat) returns (r: Result<(), TooMany>)
      modifies `state, `checksTotal, `rejectedTotal
      ensures
        var q := Prune(QueueOf(old(state), PolicyKey(p)), now);
        && state == old(state)[PolicyKey(p) := q]
        && r == (if |q| < p.1 then Ok(()) else Err(TooMany(Bucket("policy", p.0), RetryAfter(q, now))))
        && checksTotal == old(checksTotal) + 1
        && rejectedTotal == old(rejectedTotal) + (if r.Ok? then 0 else 1)
    {
      checksTotal := checksTotal + 1;
      var q := PruneQueue(PolicyKey(p), now);
      if |q| >= p.1 {
        rejectedTotal := rejectedTotal + 1;
        return Err(TooMany(Bucket("policy", p.0), RetryAfter(q, now)));
      }
      return Ok(());
    }

    /** Phase two: every bucket gets its hit. */
    method PushAll(active: seq<(string, nat)>, now: nat)
      modifies `state
      ensures state == PushedAll(old(state), PolicyKeys(active), now)
    {
      assert active[..0] == [];
      for i := 0 to |active|
        invariant state == PushedAll(old(state), PolicyKeys(active[..i]), now)
      {
        KeysStep(active, i);
        state := state[PolicyKey(active[i]) := QueueOf(state, PolicyKey(active[i])) + [now]];
      }
      assert active[..|active|] == active;
    }
  }

  function PolicyKey(p: (string, nat)): string {
    KeyOf(Bucket("policy", p.0))
  }

  function PolicyKeys(active: seq<(string, nat)>): (keys: seq<string>)
    ensures |keys| == |active| && forall i | 0 <= i < |keys| :: keys[i] == PolicyKey(active[i])
  {
    seq(|active|, i requires 0 <= i < |active| => PolicyKey(active[i]))
  }

  /** The policies whose cap is not disabled. */
  ghost function Active(policies: seq<(string, nat)>): seq<(string, nat)> {
    KeepWhere(policies, Enabled())
  }

  ghost function Enabled(): ((string, nat)) -> bool {
    (p: (string, nat)) => p.1 > 0
  }

  /** These are, in order, exactly the policies with a positive cap. */
  lemma ActiveExactly(policies: seq<(string, nat)>) returns (which: seq<nat>)
    ensures forall i, j | 0 <= i < j < |which| :: which[i] < which[j]
    ensures forall k: nat :: k in which <==> k < |policies| && policies[k].1 > 0
    ensures Picks(Active(policies), policies, which)
  {
    which := KeepWhereExactly(policies, Enabled(), |policies|);
    assert policies[..|policies|] == policies;
  }

  /** Fewer instants than the cap are left in the policy's own queue. */
  ghost predicate HasRoom(state: Queues, p: (string, nat), now: nat) {
    |Prune(QueueOf(state, "policy" + ":" + p.0), now)| < p.1
  }

  ghost predicate EnabledOnce(policies: seq<(string, nat)>) {
    forall i, j | 0 <= i < j < |policies| && policies[i].1 > 0 && policies[j].1 > 0 :: policies[i].0 != policies[j].0
  }

  /** Every policy with a positive cap got the instant behind its pruned queue; no other queue has changed. */
  ghost predicate ChargedExactly(before: Queues, after: Queues, policies: seq<(string, nat)>, now: nat) {
    && (forall i | 0 <= i < |policies| && policies[i].1 > 0 ::
          var key := "policy" + ":" + policies[i].0;
          QueueOf(after, key) == Prune(QueueOf(before, key), now) + [now])
    && (forall key | (forall i | 0 <= i < |policies| && policies[i].1 > 0 :: key != "policy" + ":" + policies[i].0) ::
          QueueOf(after, key) == QueueOf(before, key))
  }

  /** The `i`th policy is the first with a positive cap and no room, and the error is about it. */
  ghost predicate RefusedBy(state: Queues, policies: seq<(string, nat)>, i: nat, now: nat, error: TooMany) {
    && i < |policies| && policies[i].1 > 0 && !HasRoom(state, policies[i], now)
    && (forall j | 0 <= j < i && policies[j].1 > 0 :: HasRoom(state, policies[j], now))
    && var left := Prune(QueueOf(state, "policy" + ":" + policies[i].0), now);
       error == TooMany(Bucket("policy", policies[i].0), RetryAfter(left, now))
  }

  /** The batch in terms of the policies that were given. */
  lemma BatchOverPolicies(state: Queues, policies: seq<(string, nat)>, now: nat)
    ensures
      var active := Active(policies);
      var n, after := AdmittedFirst(state, active, now), BatchStep(state, policies, now);
      && (n == |active| <==> forall i | 0 <= i < |policies| && policies[i].1 > 0 :: HasRoom(state, policies[i], now))
      && (n == |active| && EnabledOnce(policies) ==> ChargedExactly(state, after, policies, now))
      && (n < |active| ==> exists i: nat :: RefusedBy(state, policies, i, now, Refusal(state, active[n], now)))
      && (n < |active| ==> OnlyPruned(state, after, now))
  {
    var active := Active(policies);
    var n := AdmittedFirst(state, active, now);
    RoomExactly(state, policies, now);
    if n == |active| && EnabledOnce(policies) {
      BatchCharges(state, policies, now);
    }
    if n < |active| {
      PrunedInTurnOnly(state, PolicyKeys(active[..n + 1]), now);
    }
  }

  /** Every queue is what it was, or that pruned. */
  ghost predicate OnlyPruned(before: Queues, after: Queues, now: nat) {
    forall key ::
      QueueOf(after, key) == QueueOf(before, key) || QueueOf(after, key) == Prune(QueueOf(before, key), now)
  }

  lemma PrunedInTurnOnly(state: Queues, keys: seq<string>, now: nat)
    ensures OnlyPruned(state, PrunedAll(state, keys, now), now)
  {
    forall key
      ensures QueueOf(PrunedAll(state, keys, now), key) == QueueOf(state, key) ||
              QueueOf(PrunedAll(state, keys, now), key) == Prune(QueueOf(state, key), now)
    {
      RejectedBatchRecordsNothing(state, keys, key, now);
    }
  }

  lemma RoomExactly(state: Queues, policies: seq<(string, nat)>, now: nat)
    ensures
      var active := Active(policies);
      var n := AdmittedFirst(state, active, now);
      && (n == |active| <==> forall i | 0 <= i < |policies| && policies[i].1 > 0 :: HasRoom(state, policies[i], now))
      && (n < |active| ==> exists i: nat :: RefusedBy(state, policies, i, now, Refusal(state, active[n], now)))
  {
    var active := Active(policies);
    var n := AdmittedFirst(state, active, now);
    var which := ActiveExactly(policies);
    AdmittedFirstExactly(state, active, now);
    if n < |active| {
      var i := which[n];
      assert i in which && active[n] == policies[i];
      forall j | 0 <= j < i && policies[j].1 > 0
        ensures HasRoom(state, policies[j], now)
      {
        assert j in which;
        var m :| 0 <= m < |which| && which[m] == j;
        assert m < n && Admits(QueueOf(state, PolicyKey(active[m])), active[m].1, now);
      }
      assert RefusedBy(state, policies, i, now, Refusal(state, active[n], now));
    } else {
      forall i | 0 <= i < |policies| && policies[i].1 > 0
        ensures HasRoom(state, policies[i], now)
      {
        assert i in which;
        var m :| 0 <= m < |which| && which[m] == i;
        assert Admits(QueueOf(state, PolicyKey(active[m])), active[m].1, now);
      }
    }
  }

  lemma ActiveKeyIsNamed(policies: seq<(string, nat)>, key: string) returns (i: nat)
    requires key in PolicyKeys(Active(policies))
    ensures i < |policies| && policies[i].1 > 0 && key == PolicyKey(policies[i])
  {
    var which := ActiveExactly(policies);
    var keys := PolicyKeys(Active(policies));
    var m :| 0 <= m < |keys| && keys[m] == key;
    i := which[m];
    assert i in which;
  }

  lemma NotNamedNotActive(policies: seq<(string, nat)>, key: string)
    requires forall i | 0 <= i < |policies| && policies[i].1 > 0 :: key != "policy" + ":" + policies[i].0
    ensures key !in PolicyKeys(Active(policies))
  {
    if key in PolicyKeys(Active(policies)) {
      var i := ActiveKeyIsNamed(policies, key);
    }
  }

  lemma BatchCharges(state: Queues, policies: seq<(string, nat)>, now: nat)
    requires AdmittedFirst(state, Active(policies), now) == |Active(policies)| && EnabledOnce(policies)
    ensures ChargedExactly(state, BatchStep(state, policies, now), policies, now)
  {
    var active, after := Active(policies), BatchStep(state, policies, now);
    var which := ActiveExactly(policies);
    var keys := PolicyKeys(active);
    assert DistinctNames(active) by {
      forall i, j | 0 <= i < j < |active|
        ensures active[i].0 != active[j].0
      {
        assert which[i] in which && which[j] in which && which[i] < which[j];
      }
    }
    DistinctNamesDistinctKeys(active);
    forall i | 0 <= i < |policies| && policies[i].1 > 0
      ensures
        var key := "policy" + ":" + policies[i].0;
        QueueOf(after, key) == Prune(QueueOf(state, key), now) + [now]
    {
      assert i in which;
      var m :| 0 <= m < |which| && which[m] == i;
      assert keys[m] == PolicyKey(policies[i]);
      AcceptedOnKey(state, keys, keys[m], now);
    }
    forall key | (forall i | 0 <= i < |policies| && policies[i].1 > 0 :: key != "policy" + ":" + policies[i].0)
      ensures QueueOf(after, key) == QueueOf(state, key)
    {
      NotNamedNotActive(policies, key);
      AcceptedOnKey(state, keys, key, now);
    }
  }

  method FilterActive(policies: seq<(string, nat)>) returns (active: seq<(string, nat)>)
    ensures active == Active(policies)
  {
    active := [];
    for i := 0 to |policies|
      invariant active == Active(policies[..i])
    {
      assert policies[..i + 1][..i] == policies[..i];
      if policies[i].1 > 0 {
        active := active + [policies[i]];
      }
    }
    assert policies[..|policies|] == policies;
  }

  lemma KeysStep(active: seq<(string, nat)>, i: nat)
    requires i < |active|
    ensures PolicyKeys(active[..i + 1])[..i] == PolicyKeys(active[..i]) && active[..i + 1][..i] == active[..i]
  {
  }

  /** How many policies admit before the first that does not. */
  ghost function AdmittedFirst(state: Queues, active: seq<(string, nat)>, now: nat): (n: nat)
    ensures n <= |active|
  {
    if active == [] then 0
    else
      var before, last := active[..|active| - 1], active[|active| - 1];
      var n := AdmittedFirst(state, before, now);
      if n < |before| || !Admits(QueueOf(state, PolicyKey(last)), last.1, now) then n else n + 1
  }

  lemma {:induction false} AdmittedFirstExactly(state: Queues, active: seq<(string, nat)>, now: nat)
    ensures
      var n := AdmittedFirst(state, active, now);
      && (forall i | 0 <= i < n :: Admits(QueueOf(state, PolicyKey(active[i])), active[i].1, now))
      && (n < |active| ==> !Admits(QueueOf(state, PolicyKey(active[n])), active[n].1, now))
  {
    if active != [] {
      AdmittedFirstExactly(state, active[..|active| - 1], now);
    }
  }

  lemma {:induction false} RefusalStays(state: Queues, active: seq<(string, nat)>, i: nat, now: nat)
    requires i < |active| && AdmittedFirst(state, active[..i + 1], now) == i
    ensures AdmittedFirst(state, active, now) == i
    decreases |active|
  {
    if i + 1 < |active| {
      var before := active[..|active| - 1];
      assert before[..i + 1] == active[..i + 1];
      RefusalStays(state, before, i, now);
    } else {
      assert active[..i + 1] == active;
    }
  }

  /** The state once the first `n` policies have been looked at. */
  ghost function PhaseOne(start: Queues, active: seq<(string, nat)>, n: nat, now: nat): Queues
    requires n <= |active|
  {
    PrunedAll(start, PolicyKeys(active[..n]), now)
  }

  lemma PhaseOneEnds(start: Queues, active: seq<(string, nat)>, now: nat)
    ensures PhaseOne(start, active, 0, now) == start && AdmittedFirst(start, active[..0], now) == 0
    ensures PhaseOne(start, active, |active|, now) == PrunedAll(start, PolicyKeys(active), now)
    ensures active[..|active|] == active
  {
    assert active[..0] == [] && PolicyKeys(active[..0]) == [];
    assert active[..|active|] == active;
  }

  /** The state after a batch: every active policy pruned and charged, or those up to the first refusal pruned. */
  ghost function BatchStep(state: Queues, policies: seq<(string, nat)>, now: nat): Queues {
    var active := Active(policies);
    var n := AdmittedFirst(state, active, now);
    if n == |active| then PushedAll(PrunedAll(state, PolicyKeys(active), now), PolicyKeys(active), now)
    else PrunedAll(state, PolicyKeys(active[..n + 1]), now)
  }

  lemma BatchStepByPhases(state: Queues, policies: seq<(string, nat)>, now: nat)
    ensures
      var active := Active(policies);
      var n := AdmittedFirst(state, active, now);
      BatchStep(state, policies, now) ==
      if n == |active| then PushedAll(PhaseOne(state, active, n, now), PolicyKeys(active), now)
      else PhaseOne(state, active, n + 1, now)
  {
    PhaseOneEnds(state, Active(policies), now);
  }

  lemma PhaseOneStep(start: Queues, active: seq<(string, nat)>, i: nat, now: nat)
    requires i < |active|
    ensures
      var key, before := PolicyKey(active[i]), PhaseOne(start, active, i, now);
      && Prune(QueueOf(before, key), now) == Prune(QueueOf(start, key), now)
      && PhaseOne(start, active, i + 1, now) == before[key := Prune(QueueOf(before, key), now)]
  {
    KeysStep(active, i);
    PruneAfterPrunedAll(start, PolicyKeys(active[..i]), PolicyKey(active[i]), now);
  }

  lemma AdmittedFirstStep(start: Queues, active: seq<(string, nat)>, i: nat, now: nat)
    requires i < |active| && AdmittedFirst(start, active[..i], now) == i
    ensures
      var ok := Admits(QueueOf(start, PolicyKey(active[i])), active[i].1, now);
      && AdmittedFirst(start, active[..i + 1], now) == (if ok then i + 1 else i)
      && (!ok ==> AdmittedFirst(start, active, now) == i)
  {
    assert active[..i + 1][..i] == active[..i];
    if !Admits(QueueOf(start, PolicyKey(active[i])), active[i].1, now) {
      RefusalStays(start, active, i, now);
    }
  }

  ghost function Refusal(state: Queues, p: (string, nat), now: nat): TooMany {
    TooMany(Bucket("policy", p.0), RetryAfter(Prune(QueueOf(state, PolicyKey(p)), now), now))
  }

  lemma PruneTwice(q: seq<nat>, now: nat)
    ensures Prune(Prune(q, now), now) == Prune(q, now)
  {
    var p := Prune(q, now);
    FirstKeptExactly(q, now, 0);
    assert p != [] ==> p[0] == q[FirstKept(q, now, 0)];
    assert FirstKept(p, now, 0) == 0;
  }

  lemma QueueSet(state: Queues, key: string, q: seq<nat>, other: string)
    ensures QueueOf(state[key := q], other) == if other == key then q else QueueOf(state, other)
  {
  }

  lemma InLast(keys: seq<string>, key: string)
    requires keys != []
    ensures key in keys <==> key in keys[..|keys| - 1] || key == keys[|keys| - 1]
  {
    assert keys == keys[..|keys| - 1] + [keys[|keys| - 1]];
  }

  /** Pruning in turn changes a queue only by pruning it. */
  lemma {:induction false} PrunedQueue(state: Queues, keys: seq<string>, key: string, now: nat)
    ensures QueueOf(PrunedAll(state, keys, now), key) ==
            if key in keys then Prune(QueueOf(state, key), now) else QueueOf(state, key)
  {
    if keys != [] {
      var before, last := PrunedAll(state, keys[..|keys| - 1], now), keys[|keys| - 1];
      PrunedQueue(state, keys[..|keys| - 1], key, now);
      InLast(keys, key);
      QueueSet(before, last, Prune(QueueOf(before, last), now), key);
      if key == last {
        PruneTwice(QueueOf(state, key), now);
      }
    }
  }

  lemma PruneAfterPrunedAll(state: Queues, keys: seq<string>, key: string, now: nat)
    ensures Prune(QueueOf(PrunedAll(state, keys, now), key), now) == Prune(QueueOf(state, key), now)
  {
    PrunedQueue(state, keys, key, now);
    PruneTwice(QueueOf(state, key), now);
  }

  /** How often `key` occurs. */
  function Occurrences(keys: seq<string>, key: string): nat {
    if keys == [] then 0 else Occurrences(keys[..|keys| - 1], key) + (if keys[|keys| - 1] == key then 1 else 0)
  }

  lemma {:induction false} PushedQueue(state: Queues, keys: seq<string>, key: string, now: nat)
    ensures |QueueOf(PushedAll(state, keys, now), key)| == |QueueOf(state, key)| + Occurrences(keys, key)
    ensures QueueOf(state, key) <= QueueOf(PushedAll(state, keys, now), key)
  {
    if keys != [] {
      PushedQueue(state, keys[..|keys| - 1], key, now);
    }
  }

  /** A rejected batch adds no timestamp to any bucket: each queue is what it was, or that pruned. */
  lemma RejectedBatchRecordsNothing(state: Queues, keys: seq<string>, key: string, now: nat)
    ensures QueueOf(PrunedAll(state, keys, now), key) == QueueOf(state, key) ||
            QueueOf(PrunedAll(state, keys, now), key) == Prune(QueueOf(state, key), now)
  {
    PrunedQueue(state, keys, key, now);
  }

  /** An accepted batch leaves a bucket within its cap exactly when the entries left in the window and the number of
      times the batch names it fit: phase one does not count the batch's own repetitions. */
  lemma AcceptedBatchWithinCap(state: Queues, keys: seq<string>, key: string, cap: nat, now: nat)
    requires key in keys
    ensures |QueueOf(PushedAll(PrunedAll(state, keys, now), keys, now), key)| <= cap
            <==> |Prune(QueueOf(state, key), now)| + Occurrences(keys, key) <= cap
  {
    PrunedQueue(state, keys, key, now);
    PushedQueue(PrunedAll(state, keys, now), keys, key, now);
  }

  /** A policy named twice overshoots a cap of one. */
  lemma RepeatedPolicyOvershoots(now: nat)
    ensures
      var keys := PolicyKeys([("p", 1), ("p", 1)]);
      && (forall i | 0 <= i < 2 :: Admits(QueueOf(map[], keys[i]), 1, now))
      && |QueueOf(PushedAll(PrunedAll(map[], keys, now), keys, now), keys[0])| == 2
  {
    var policies: seq<(string, nat)> := [("p", 1), ("p", 1)];
    var keys := PolicyKeys(policies);
    var one := keys[..|keys| - 1];
    assert |one| == 1 && one[..|one| - 1] == [];
    assert Occurrences([], keys[0]) == 0;
    assert Occurrences(one, keys[0]) == 1;
    assert Occurrences(keys, keys[0]) == 2;
    PrunedQueue(map[], keys, keys[0], now);
    PushedQueue(PrunedAll(map[], keys, now), keys, keys[0], now);
  }

  // ---- a batch of distinct policies is the singles ----

  lemma {:induction false} SinglesKeepOthers(state: Queues, keys: seq<string>, caps: seq<nat>, key: string, now: nat)
    requires |keys| == |caps| && key !in keys
    ensures QueueOf(SinglesInTurn(state, keys, caps, now), key) == QueueOf(state, key)
  {
    if keys != [] {
      assert keys == keys[..|keys| - 1] + [keys[|keys| - 1]];
      SinglesKeepOthers(state, keys[..|keys| - 1], caps[..|keys| - 1], key, now);
    }
  }

  /** Each single check, made after those before it, decides as it would on the state before the batch. */
  lemma SinglesDecideAlike(state: Queues, keys: seq<string>, caps: seq<nat>, i: nat, now: nat)
    requires |keys| == |caps| && Distinct(keys) && i < |keys|
    ensures Admits(QueueOf(SinglesInTurn(state, keys[..i], caps[..i], now), keys[i]), caps[i], now)
            <==> Admits(QueueOf(state, keys[i]), caps[i], now)
  {
    SinglesKeepOthers(state, keys[..i], caps[..i], keys[i], now);
  }

  lemma DistinctLast(keys: seq<string>)
    requires keys != [] && Distinct(keys)
    ensures Distinct(keys[..|keys| - 1]) && keys[|keys| - 1] !in keys[..|keys| - 1]
  {
    assert keys == keys[..|keys| - 1] + [keys[|keys| - 1]];
  }

  ghost predicate AllAdmit(state: Queues, keys: seq<string>, caps: seq<nat>, now: nat)
    requires |keys| == |caps|
  {
    forall i | 0 <= i < |keys| :: Admits(QueueOf(state, keys[i]), caps[i], now)
  }

  /** The queue one key has after the singles. */
  lemma {:induction false} SinglesQueue(state: Queues, keys: seq<string>, caps: seq<nat>, key: string, now: nat)
    requires |keys| == |caps| && Distinct(keys) && AllAdmit(state, keys, caps, now)
    ensures QueueOf(SinglesInTurn(state, keys, caps, now), key) ==
            if key in keys then Prune(QueueOf(state, key), now) + [now] else QueueOf(state, key)
  {
    if keys != [] {
      var n := |keys| - 1;
      var before, last := SinglesInTurn(state, keys[..n], caps[..n], now), keys[n];
      DistinctLast(keys);
      InLast(keys, key);
      SinglesQueue(state, keys[..n], caps[..n], key, now);
      SinglesKeepOthers(state, keys[..n], caps[..n], last, now);
      assert Admits(QueueOf(state, last), caps[n], now);
      QueueSet(before, last, Recorded(QueueOf(before, last), caps[n], now), key);
    }
  }

  lemma {:induction false} SinglesKeys(state: Queues, keys: seq<string>, caps: seq<nat>, now: nat)
    requires |keys| == |caps|
    ensures SinglesInTurn(state, keys, caps, now).Keys == state.Keys + Elements(keys)
  {
    if keys != [] {
      SinglesKeys(state, keys[..|keys| - 1], caps[..|keys| - 1], now);
      ElementsLast(keys);
    }
  }

  lemma {:induction false} BatchKeys(state: Queues, keys: seq<string>, now: nat)
    ensures PushedAll(state, keys, now).Keys == state.Keys + Elements(keys)
    ensures PrunedAll(state, keys, now).Keys == state.Keys + Elements(keys)
  {
    if keys != [] {
      BatchKeys(state, keys[..|keys| - 1], now);
      ElementsLast(keys);
    }
  }

  lemma ElementsLast(keys: seq<string>)
    requires keys != []
    ensures Elements(keys) == Elements(keys[..|keys| - 1]) + {keys[|keys| - 1]}
  {
    assert keys == keys[..|keys| - 1] + [keys[|keys| - 1]];
  }

  lemma {:induction false} CommitQueue(state: Queues, keys: seq<string>, key: string, now: nat)
    requires Distinct(keys)
    ensures QueueOf(PushedAll(state, keys, now), key) == QueueOf(state, key) + (if key in keys then [now] else [])
  {
    if keys != [] {
      var before, last := PushedAll(state, keys[..|keys| - 1], now), keys[|keys| - 1];
      DistinctLast(keys);
      InLast(keys, key);
      CommitQueue(state, keys[..|keys| - 1], key, now);
      QueueSet(before, last, QueueOf(before, last) + [now], key);
    }
  }

  lemma SameQueues(a: Queues, b: Queues)
    requires a.Keys == b.Keys && forall key :: QueueOf(a, key) == QueueOf(b, key)
    ensures a == b
  {
    forall key | key in a
      ensures a[key] == b[key]
    {
      assert QueueOf(a, key) == QueueOf(b, key);
    }
  }

  function Caps(active: seq<(string, nat)>): seq<nat> {
    seq(|active|, i requires 0 <= i < |active| => active[i].1)
  }

  /** The batch is accepted exactly when every single check on the same state would be. */
  lemma BatchAcceptedIffSinglesAre(state: Queues, active: seq<(string, nat)>, now: nat)
    ensures AdmittedFirst(state, active, now) == |active| <==> AllAdmit(state, PolicyKeys(active), Caps(active), now)
  {
    AdmittedFirstExactly(state, active, now);
    var n := AdmittedFirst(state, active, now);
    if n < |active| {
      assert PolicyKeys(active)[n] == PolicyKey(active[n]) && Caps(active)[n] == active[n].1;
    }
  }

  /** For distinct policies a batch every bucket of which admits leaves the state that the single checks, made one
      after another, would leave; and each of those singles is admitted. */
  lemma BatchIsTheSingles(state: Queues, keys: seq<string>, caps: seq<nat>, now: nat)
    requires |keys| == |caps| && Distinct(keys) && AllAdmit(state, keys, caps, now)
    ensures PushedAll(PrunedAll(state, keys, now), keys, now) == SinglesInTurn(state, keys, caps, now)
    ensures forall i: nat | i < |keys| ::
              Admits(QueueOf(SinglesInTurn(state, keys[..i], caps[..i], now), keys[i]), caps[i], now)
  {
    forall i: nat | i < |keys|
      ensures Admits(QueueOf(SinglesInTurn(state, keys[..i], caps[..i], now), keys[i]), caps[i], now)
    {
      SinglesDecideAlike(state, keys, caps, i, now);
    }
    BatchAndSinglesAgree(state, keys, caps, now);
  }

  lemma BatchAndSinglesAgree(state: Queues, keys: seq<string>, caps: seq<nat>, now: nat)
    requires |keys| == |caps| && Distinct(keys) && AllAdmit(state, keys, caps, now)
    ensures PushedAll(PrunedAll(state, keys, now), keys, now) == SinglesInTurn(state, keys, caps, now)
  {
    var batch, singles := PushedAll(PrunedAll(state, keys, now), keys, now), SinglesInTurn(state, keys, caps, now);
    forall key
      ensures QueueOf(batch, key) == QueueOf(singles, key)
    {
      SinglesQueue(state, keys, caps, key, now);
      CommitQueue(PrunedAll(state, keys, now), keys, key, now);
      PrunedQueue(state, keys, key, now);
    }
    BatchKeys(state, keys, now);
    BatchKeys(PrunedAll(state, keys, now), keys, now);
    SinglesKeys(state, keys, caps, now);
    SameQueues(batch, singles);
  }

  // ---- runs over all buckets ----

  /** One turn at the lock: a single check with the cap its caller had loaded, or a batch. New caps touch no queue. */
  datatype Event = Check(bucket: Bucket, call: Call) | Batch(policies: seq<(string, nat)>, at: nat) | Swap(cfg: Config)

  function InstantOf(e: Event): nat
    requires !e.Swap?
  {
    match e
    case Check(_, call) => call.at
    case Batch(_, at) => at
  }

  ghost function StepState(state: Queues, e: Event): Queues {
    match e
    case Check(bucket, call) => SingleCheck(state, KeyOf(bucket), call.cap, call.at)
    case Batch(policies, at) => BatchStep(state, policies, at)
    case Swap(_) => state
  }

  ghost function StateAfter(events: seq<Event>): Queues {
    if events == [] then map[] else StepState(StateAfter(events[..|events| - 1]), events[|events| - 1])
  }

  ghost predicate DistinctNames(active: seq<(string, nat)>) {
    forall i, j | 0 <= i < j < |active| :: active[i].0 != active[j].0
  }

  /** The limiter's own kinds of bucket, and no policy twice in one batch. */
  ghost predicate Proper(e: Event) {
    match e
    case Check(bucket, _) => bucket.kind in KINDS
    case Batch(policies, _) => DistinctNames(Active(policies))
    case Swap(_) => true
  }

  ghost predicate AllProper(events: seq<Event>) {
    forall i | 0 <= i < |events| :: Proper(events[i])
  }

  /** Where a bucket stands among the policies. */
  ghost function Position(active: seq<(string, nat)>, bucket: Bucket): Option<nat> {
    if active == [] then None
    else
      var last := |active| - 1;
      if Bucket("policy", active[last].0) == bucket then Some(last) else Position(active[..last], bucket)
  }

  lemma {:induction false} PositionExactly(active: seq<(string, nat)>, bucket: Bucket)
    ensures
      match Position(active, bucket)
      case Some(i) => i < |active| && Bucket("policy", active[i].0) == bucket
      case None => forall i | 0 <= i < |active| :: Bucket("policy", active[i].0) != bucket
  {
    if active != [] {
      PositionExactly(active[..|active| - 1], bucket);
    }
  }

  /** What a step is to one bucket: the check itself, the charge of an accepted batch, the pruning of a rejected one
      that got as far as the bucket (which is a check with cap 0), or nothing. */
  ghost function StepOn(state: Queues, e: Event, bucket: Bucket): seq<Call> {
    match e
    case Check(b, call) => if b == bucket then [call] else []
    case Batch(policies, at) =>
      var active := Active(policies);
      var n, i := AdmittedFirst(state, active, at), Position(active, bucket);
      if i.None? then []
      else if n == |active| then [Call(at, if i.value < |active| then active[i.value].1 else 0)]
      else if i.value <= n then [Call(at, 0)]
      else []
    case Swap(_) => []
  }

  ghost function CallsOn(events: seq<Event>, bucket: Bucket): seq<Call> {
    if events == [] then []
    else
      var before, last := events[..|events| - 1], events[|events| - 1];
      CallsOn(before, bucket) + StepOn(StateAfter(before), last, bucket)
  }

  /** What a run recorded in one bucket: its admitted checks, and each accepted batch that names it. */
  ghost function Recordings(events: seq<Event>, bucket: Bucket): seq<Call> {
    if events == [] then []
    else
      var before, last := events[..|events| - 1], events[|events| - 1];
      Recordings(before, bucket) + RecordedBy(StateAfter(before), last, bucket)
  }

  ghost function RecordedBy(state: Queues, e: Event, bucket: Bucket): seq<Call> {
    match e
    case Check(b, call) => if b == bucket && Admits(QueueOf(state, KeyOf(b)), call.cap, call.at) then [call] else []
    case Batch(policies, at) =>
      var active := Active(policies);
      var i := Position(active, bucket);
      var accepted := AdmittedFirst(state, active, at) == |active|;
      if accepted && i.Some? && i.value < |active| then [Call(at, active[i.value].1)] else []
    case Swap(_) => []
  }

  lemma SameKeyIffSameBucket(a: Bucket, b: Bucket)
    requires a.kind in KINDS && b.kind in KINDS
    ensures KeyOf(a) == KeyOf(b) <==> a == b
  {
    if KeyOf(a) == KeyOf(b) {
      KeysDistinguishBuckets(a, b);
    }
  }

  lemma OneMoreCall(calls: seq<Call>, call: Call)
    ensures QueueAfter(calls + [call]) == Recorded(QueueAfter(calls), call.cap, call.at)
    ensures Admitted(calls + [call]) ==
            Admitted(calls) + (if Admits(QueueAfter(calls), call.cap, call.at) then [call] else [])
  {
    assert (calls + [call])[..|calls|] == calls;
  }

  lemma DistinctNamesDistinctKeys(active: seq<(string, nat)>)
    requires DistinctNames(active)
    ensures Distinct(PolicyKeys(active))
  {
    forall i, j | 0 <= i < j < |active|
      ensures PolicyKey(active[i]) != PolicyKey(active[j])
    {
      SameKeyIffSameBucket(Bucket("policy", active[i].0), Bucket("policy", active[j].0));
    }
  }

  /** A bucket's key is among the first `m` policy keys exactly when the bucket stands before `m`. */
  lemma KeyAmongPolicies(active: seq<(string, nat)>, bucket: Bucket, m: nat)
    requires bucket.kind in KINDS && DistinctNames(active) && m <= |active|
    ensures
      var i := Position(active, bucket);
      KeyOf(bucket) in PolicyKeys(active[..m]) <==> i.Some? && i.value < m
  {
    PositionExactly(active, bucket);
    var keys := PolicyKeys(active[..m]);
    if KeyOf(bucket) in keys {
      var j :| 0 <= j < |keys| && keys[j] == KeyOf(bucket);
      SameKeyIffSameBucket(Bucket("policy", active[j].0), bucket);
    }
    var i := Position(active, bucket);
    if i.Some? && i.value < m {
      assert keys[i.value] == KeyOf(bucket);
    }
  }

  ghost function OneCall(q: seq<nat>, calls: seq<Call>): seq<nat>
    requires |calls| <= 1
  {
    if calls == [] then q else Recorded(q, calls[0].cap, calls[0].at)
  }

  /** What one event makes of a bucket's queue and of its recordings. */
  ghost predicate ActsOn(state: Queues, e: Event, bucket: Bucket, after: seq<nat>) {
    var q, calls := QueueOf(state, KeyOf(bucket)), StepOn(state, e, bucket);
    && |calls| <= 1
    && after == OneCall(q, calls)
    && RecordedBy(state, e, bucket) == (if calls != [] && Admits(q, calls[0].cap, calls[0].at) then calls else [])
  }

  lemma BatchOnBucket(state: Queues, policies: seq<(string, nat)>, at: nat, bucket: Bucket)
    requires bucket.kind in KINDS && DistinctNames(Active(policies))
    ensures ActsOn(state, Batch(policies, at), bucket, QueueOf(BatchStep(state, policies, at), KeyOf(bucket)))
  {
    if AdmittedFirst(state, Active(policies), at) == |Active(policies)| {
      AcceptedActs(state, policies, at, bucket);
    } else {
      RejectedActs(state, policies, at, bucket);
    }
  }

  lemma AcceptedActs(state: Queues, policies: seq<(string, nat)>, at: nat, bucket: Bucket)
    requires bucket.kind in KINDS && DistinctNames(Active(policies))
    requires AdmittedFirst(state, Active(policies), at) == |Active(policies)|
    ensures ActsOn(state, Batch(policies, at), bucket, QueueOf(BatchStep(state, policies, at), KeyOf(bucket)))
  {
    AcceptedOnBucket(state, Active(policies), at, bucket);
  }

  lemma RejectedActs(state: Queues, policies: seq<(string, nat)>, at: nat, bucket: Bucket)
    requires bucket.kind in KINDS && DistinctNames(Active(policies))
    requires AdmittedFirst(state, Active(policies), at) < |Active(policies)|
    ensures ActsOn(state, Batch(policies, at), bucket, QueueOf(BatchStep(state, policies, at), KeyOf(bucket)))
  {
    RejectedOnBucket(state, Active(policies), at, bucket);
    RejectedStepOn(state, policies, at, bucket);
  }

  lemma RejectedStepOn(state: Queues, policies: seq<(string, nat)>, at: nat, bucket: Bucket)
    requires AdmittedFirst(state, Active(policies), at) < |Active(policies)|
    ensures
      var n, i := AdmittedFirst(state, Active(policies), at), Position(Active(policies), bucket);
      && StepOn(state, Batch(policies, at), bucket) == (if i.Some? && i.value <= n then [Call(at, 0)] else [])
      && RecordedBy(state, Batch(policies, at), bucket) == []
  {
  }

  lemma AcceptedOnBucket(state: Queues, active: seq<(string, nat)>, at: nat, bucket: Bucket)
    requires bucket.kind in KINDS && DistinctNames(active) && AdmittedFirst(state, active, at) == |active|
    ensures
      var q, i := QueueOf(state, KeyOf(bucket)), Position(active, bucket);
      && (i.Some? ==> i.value < |active| && Admits(q, active[i.value].1, at))
      && QueueOf(PushedAll(PrunedAll(state, PolicyKeys(active), at), PolicyKeys(active), at), KeyOf(bucket)) ==
         if i.Some? then Prune(q, at) + [at] else q
  {
    PositionExactly(active, bucket);
    AdmittedFirstExactly(state, active, at);
    KeyAmongPolicies(active, bucket, |active|);
    assert active[..|active|] == active;
    DistinctNamesDistinctKeys(active);
    AcceptedOnKey(state, PolicyKeys(active), KeyOf(bucket), at);
  }

  lemma RejectedOnBucket(state: Queues, active: seq<(string, nat)>, at: nat, bucket: Bucket)
    requires bucket.kind in KINDS && DistinctNames(active) && AdmittedFirst(state, active, at) < |active|
    ensures
      var n, q, i := AdmittedFirst(state, active, at), QueueOf(state, KeyOf(bucket)), Position(active, bucket);
      QueueOf(PrunedAll(state, PolicyKeys(active[..n + 1]), at), KeyOf(bucket)) ==
      if i.Some? && i.value <= n then Prune(q, at) else q
  {
    var n := AdmittedFirst(state, active, at);
    KeyAmongPolicies(active, bucket, n + 1);
    PrunedQueue(state, PolicyKeys(active[..n + 1]), KeyOf(bucket), at);
  }

  lemma AcceptedOnKey(state: Queues, keys: seq<string>, key: string, at: nat)
    requires Distinct(keys)
    ensures QueueOf(PushedAll(PrunedAll(state, keys, at), keys, at), key) ==
            if key in keys then Prune(QueueOf(state, key), at) + [at] else QueueOf(state, key)
  {
    PrunedQueue(state, keys, key, at);
    CommitQueue(PrunedAll(state, keys, at), keys, key, at);
  }

  lemma StepOnBucket(state: Queues, e: Event, bucket: Bucket)
    requires bucket.kind in KINDS && Proper(e)
    ensures ActsOn(state, e, bucket, QueueOf(StepState(state, e), KeyOf(bucket)))
  {
    match e
    case Check(b, call) =>
      SameKeyIffSameBucket(b, bucket);
      QueueSet(state, KeyOf(b), Recorded(QueueOf(state, KeyOf(b)), call.cap, call.at), KeyOf(bucket));
    case Batch(policies, at) => BatchOnBucket(state, policies, at, bucket);
    case Swap(_) =>
  }

  /** Over any mix of checks, batches and swaps on any buckets, a bucket's queue is the one its own calls leave, and
      what the run recorded in it are those of them that were admitted. Only a batch lets other buckets matter: whether
      it is accepted, or how far it gets. */
  lemma {:induction false} BucketsAreIndependent(events: seq<Event>, bucket: Bucket)
    requires bucket.kind in KINDS && AllProper(events)
    ensures QueueOf(StateAfter(events), KeyOf(bucket)) == QueueAfter(CallsOn(events, bucket))
    ensures Recordings(events, bucket) == Admitted(CallsOn(events, bucket))
  {
    if events != [] {
      var before, last := events[..|events| - 1], events[|events| - 1];
      BucketsAreIndependent(before, bucket);
      StepOnBucket(StateAfter(before), last, bucket);
      AtMostOneMoreCall(CallsOn(before, bucket), StepOn(StateAfter(before), last, bucket));
    }
  }

  lemma AtMostOneMoreCall(own: seq<Call>, calls: seq<Call>)
    requires |calls| <= 1
    ensures QueueAfter(own + calls) == OneCall(QueueAfter(own), calls)
    ensures Admitted(own + calls) ==
            Admitted(own) + if calls != [] && Admits(QueueAfter(own), calls[0].cap, calls[0].at) then calls else []
  {
    if calls == [] {
      assert own + calls == own;
    } else {
      assert calls == [calls[0]];
      OneMoreCall(own, calls[0]);
    }
  }

  /** No instant is more than `skew` behind one at an earlier turn. */
  ghost predicate EventSkew(events: seq<Event>, skew: nat) {
    forall i, j | 0 <= i < j < |events| && !events[i].Swap? && !events[j].Swap? ::
      InstantOf(events[i]) <= InstantOf(events[j]) + skew
  }

  ghost predicate NoEventAfter(events: seq<Event>, t: nat) {
    forall i | 0 <= i < |events| && !events[i].Swap? :: InstantOf(events[i]) <= t
  }

  lemma {:induction false} CallsNoneAfter(events: seq<Event>, bucket: Bucket, t: nat)
    requires NoEventAfter(events, t)
    ensures NoneAfter(CallsOn(events, bucket), t)
  {
    if events != [] {
      CallsNoneAfter(events[..|events| - 1], bucket, t);
    }
  }

  lemma {:induction false} CallsSkew(events: seq<Event>, bucket: Bucket, skew: nat)
    requires EventSkew(events, skew)
    ensures SkewAtMost(CallsOn(events, bucket), skew)
  {
    if events != [] {
      var before, last := events[..|events| - 1], events[|events| - 1];
      CallsSkew(before, bucket, skew);
      if !last.Swap? {
        CallsNoneAfter(before, bucket, InstantOf(last) + skew);
      }
    }
  }

  /** In every bucket, over any run of checks, batches and swaps, a closed window of 60 seconds less the skew records at
      most as many calls as the largest cap in force for one of them. */
  lemma RunWindowBound(events: seq<Event>, bucket: Bucket, skew: nat, from: nat, cap: nat)
    requires bucket.kind in KINDS && AllProper(events) && EventSkew(events, skew) && skew <= WINDOW
    requires forall c | c in Recordings(events, bucket) && InWindow(c, from, WINDOW - skew) :: c.cap <= cap
    ensures CountInWindow(Recordings(events, bucket), from, WINDOW - skew) <= cap
  {
    BucketsAreIndependent(events, bucket);
    CallsSkew(events, bucket, skew);
    WindowBound(CallsOn(events, bucket), skew, from, cap);
  }

  /** And its queue, pruned, holds exactly what the run recorded in the window, give or take the skew. */
  lemma RunQueueIsTheWindow(events: seq<Event>, bucket: Bucket, now: nat, skew: nat)
    requires bucket.kind in KINDS && AllProper(events) && EventSkew(events, skew) && NoEventAfter(events, now + skew)
    ensures
      var a, p := Recordings(events, bucket), Prune(QueueOf(StateAfter(events), KeyOf(bucket)), now);
      && IsTailOf(p, a)
      && (forall i | 0 <= i < |a| - |p| :: a[i].at + WINDOW < now + skew)
      && (forall i | |a| - |p| <= i < |a| :: now <= a[i].at + WINDOW + skew)
  {
    BucketsAreIndependent(events, bucket);
    CallsSkew(events, bucket, skew);
    CallsNoneAfter(events, bucket, now + skew);
    PrunedQueueIsTheWindow(CallsOn(events, bucket), now, skew);
  }

  // ---- a login is two turns ----

  lemma {:induction false} RecordingsOnlyGrow(events: seq<Event>, k: nat, bucket: Bucket)
    requires k <= |events|
    ensures Recordings(events[..k], bucket) <= Recordings(events, bucket)
    decreases |events|
  {
    if k < |events| {
      var before := events[..|events| - 1];
      assert before[..k] == events[..k];
      RecordingsOnlyGrow(before, k, bucket);
    } else {
      assert events[..k] == events;
    }
  }

  /** A login checks the user, lets go of the lock, then checks the address. Whatever happens in between and whatever
      becomes of the second check, the user's queue still holds the first charge, until it can have left the window. */
  lemma LoginKeepsTheFirstCharge(before: seq<Event>, user: string, first: Call, between: seq<Event>, ip: string,
                                 second: Call, now: nat, skew: nat)
    requires Admits(QueueOf(StateAfter(before), KeyOf(Bucket("login_user", user))), first.cap, first.at)
    requires
      var run := LoginRun(before, user, first, between, ip, second);
      AllProper(run) && EventSkew(run, skew) && NoEventAfter(run, now + skew)
    requires now + skew <= first.at + WINDOW
    ensures
      var run := LoginRun(before, user, first, between, ip, second);
      first.at in Prune(QueueOf(StateAfter(run), KeyOf(Bucket("login_user", user))), now)
  {
    var u := Bucket("login_user", user);
    var run := LoginRun(before, user, first, between, ip, second);
    ChargeIsRecorded(before, user, first, between, ip, second);
    RunQueueIsTheWindow(run, u, now, skew);
    var a, p, i := Recordings(run, u), Prune(QueueOf(StateAfter(run), KeyOf(u)), now), |Recordings(before, u)|;
    assert a[i] == first && i >= |a| - |p|;
    assert p[i - (|a| - |p|)] == first.at;
  }

  ghost function LoginRun(before: seq<Event>, user: string, first: Call, between: seq<Event>, ip: string, second: Call)
    : seq<Event>
  {
    before + [Check(Bucket("login_user", user), first)] + between + [Check(Bucket("client", ip), second)]
  }

  lemma ChargeIsRecorded(before: seq<Event>, user: string, first: Call, between: seq<Event>, ip: string, second: Call)
    requires Admits(QueueOf(StateAfter(before), KeyOf(Bucket("login_user", user))), first.cap, first.at)
    ensures
      var u, run := Bucket("login_user", user), LoginRun(before, user, first, between, ip, second);
      Recordings(before, u) + [first] <= Recordings(run, u)
  {
    var u, run := Bucket("login_user", user), LoginRun(before, user, first, between, ip, second);
    var charged := before + [Check(u, first)];
    assert charged[..|before|] == before && run[..|charged|] == charged;
    RecordingsOnlyGrow(run, |charged|, u);
  }
}
