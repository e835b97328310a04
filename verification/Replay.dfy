/** Replay protection of the agent: the freshness window of `verify_envelope` (`crates/iac-agent/src/remote.rs`), the
    table of processed assignments (`crates/iac-agent/src/store.rs`) and the loop that uses both
    (`crates/iac-agent/src/agent.rs`). Instants are nanoseconds since the epoch; the freshness check compares whole
    seconds. */
module Replay {
  import opened Common

  const SECOND: nat := 1_000_000_000
  const FUTURE_GRACE_SECS: int := 300
  const SECS_PER_DAY: int := 86_400
  const RETAIN_DAYS: int := 7
  const TWO_63: int := 0x8000_0000_0000_0000
  const TWO_64: int := 0x1_0000_0000_0000_0000

  /** `Timestamp::as_second`. */
  function AsSecond(t: int): int {
    t / SECOND
  }

  // ---- envelopes ----

  datatype Expiry = NoExpiry | Unparseable | ExpiresAt(at: nat)

  /** `signed` says whether the signature verifies under the key named by `keyId`; `created` is absent if
      unparseable. */
  datatype Envelope = Envelope(id: string, keyId: string, created: Option<nat>, expires: Expiry, signed: bool)

  datatype VerifyError = NoPinnedKeys | UnknownKey | BadCreated | TooOld | FutureDated | BadExpiry | Expired
    | BadSignature

  /** `max_age as i64`: a configured age of 2^63 or more wraps to a negative one. */
  function AgeCap(maxAge: nat): int {
    if maxAge % TWO_64 < TWO_63 then maxAge % TWO_64 else maxAge % TWO_64 - TWO_64
  }

  function CheckEnvelopeFreshness(now: nat, created: Option<nat>, maxAge: nat): Option<VerifyError> {
    if created.None? then Some(BadCreated)
    else
      var age := AsSecond(now) - AsSecond(created.value);
      if age > AgeCap(maxAge) then Some(TooOld)
      else if age < -FUTURE_GRACE_SECS then Some(FutureDated)
      else None
  }

  function CheckExpiry(now: nat, expires: Expiry): Option<VerifyError> {
    match expires
    case NoExpiry => None
    case Unparseable => Some(BadExpiry)
    case ExpiresAt(at) => if AsSecond(now) - AsSecond(at) > FUTURE_GRACE_SECS then Some(Expired) else None
  }

  /** The checks in order; `maxAge` is absent when the age check is switched off. */
  function VerifyEnvelope(env: Envelope, pinned: set<string>, now: nat, maxAge: Option<nat>): Option<VerifyError> {
    if pinned == {} then Some(NoPinnedKeys)
    else if env.keyId !in pinned then Some(UnknownKey)
    else
      var stale := if maxAge.Some? then CheckEnvelopeFreshness(now, env.created, maxAge.value) else None;
      if stale.Some? then stale
      else
        var expired := CheckExpiry(now, env.expires);
        if expired.Some? then expired
        else if !env.signed then Some(BadSignature)
        else None
  }

  /** What an envelope must be, field by field: signed by a pinned key, in the age window when the check is on (whose
      limit is read as a signed 64-bit number), at most 300 s from the future, and at most 300 s past its expiry. */
  predicate Acceptable(env: Envelope, pinned: set<string>, now: nat, maxAge: Option<nat>) {
    && env.signed && env.keyId in pinned
    && (maxAge.Some? ==>
          && env.created.Some?
          && var age := now / 1_000_000_000 - env.created.value / 1_000_000_000;
             var limit := maxAge.value % 18_446_744_073_709_551_616;
             && -300 <= age
             && age <= (if limit < 9_223_372_036_854_775_808 then limit else limit - 18_446_744_073_709_551_616))
    && match env.expires
       case NoExpiry => true
       case Unparseable => false
       case ExpiresAt(at) => now / 1_000_000_000 - at / 1_000_000_000 <= 300
  }

  lemma VerifiesExactly(env: Envelope, pinned: set<string>, now: nat, maxAge: Option<nat>)
    ensures VerifyEnvelope(env, pinned, now, maxAge).None? <==> Acceptable(env, pinned, now, maxAge)
  {
    assert env.keyId in pinned ==> pinned != {};
  }

  // ---- the protocol, step by step ----

  datatype Status = Succeeded | PartiallyApplied | Failed

  /** What executing an assignment comes to: a report with a status, or an error. */
  datatype Outcome = Reported(status: Status) | Error

  datatype Row = Row(processedAt: nat, status: string)

  datatype Entry = Entry(id: string, status: Status)

  /** `executed` lists every execution so far, `reports` every status sent to the server, `pending` the envelopes
      fetched and verified but not yet handled, `clock` the last instant read. */
  datatype State = State(rows: map<string, Row>, pending: seq<Envelope>, executed: seq<Entry>, reports: seq<Entry>,
    clock: nat)

  datatype Event =
    | Fetch(arrivals: seq<Envelope>, readings: seq<nat>, pinned: set<string>)
    | Handle(outcome: Outcome, at: nat)
    | Restart
    | Vacuum(now: nat, textBefore: set<string>)

  function StatusText(s: Status): string {
    match s case Succeeded => "succeeded" case PartiallyApplied => "partially_applied" case Failed => "failed"
  }

  function StatusFromText(text: string): Status {
    if text == "succeeded" then Succeeded else if text == "partially_applied" then PartiallyApplied else Failed
  }

  function OutcomeStatus(o: Outcome): Status {
    if o.Reported? then o.status else Failed
  }

  /** `INSERT OR IGNORE`. */
  function Mark(rows: map<string, Row>, id: string, status: string, at: nat): map<string, Row> {
    if id in rows then rows else rows[id := Row(at, status)]
  }

  /** A row goes when its text is below the cutoff's: always if it is of an earlier second, and in the same second if
      the rendered fractions compare so (`textBefore`). */
  predicate Pruned(row: Row, id: string, now: nat, retainDays: int, textBefore: set<string>) {
    var cutoff := AsSecond(now - retainDays * SECS_PER_DAY * SECOND);
    AsSecond(row.processedAt) < cutoff || (AsSecond(row.processedAt) == cutoff && id in textBefore)
  }

  function VacuumRows(rows: map<string, Row>, now: nat, retainDays: int, textBefore: set<string>): map<string, Row> {
    map id | id in rows && !Pruned(rows[id], id, now, retainDays, textBefore) :: rows[id]
  }

  /** One turn of the loop in `drain_assignments`. */
  function HandleOne(s: State, env: Envelope, outcome: Outcome, at: nat): State {
    if env.id in s.rows then
      s.(reports := s.reports + [Entry(env.id, StatusFromText(s.rows[env.id].status))], clock := at)
    else
      var status := OutcomeStatus(outcome);
      s.(rows := Mark(s.rows, env.id, StatusText(status), at),
         executed := s.executed + [Entry(env.id, status)],
         reports := s.reports + [Entry(env.id, status)],
         clock := at)
  }

  /** Every envelope of the answer verifies; one that does not rejects the whole fetch. */
  predicate AllVerify(arrivals: seq<Envelope>, readings: seq<nat>, pinned: set<string>, maxAge: Option<nat>) {
    |readings| == |arrivals|
    && forall k | 0 <= k < |arrivals| :: VerifyEnvelope(arrivals[k], pinned, readings[k], maxAge).None?
  }

  ghost predicate NonDecreasingFrom(readings: seq<nat>, from: nat) {
    && (forall k | 0 <= k < |readings| :: from <= readings[k])
    && (forall j, k | 0 <= j < k < |readings| :: readings[j] <= readings[k])
  }

  /** Program order and what is assumed of the surroundings: the clock does not run backwards, fetching and vacuuming
      happen between drains, and a signature binds one creation time to each assignment id. */
  ghost predicate Enabled(s: State, e: Event, createdOf: string -> nat) {
    match e
    case Fetch(arrivals, readings, pinned) =>
      && s.pending == [] && |readings| == |arrivals| && NonDecreasingFrom(readings, s.clock)
      && forall k | 0 <= k < |arrivals| && arrivals[k].signed && arrivals[k].created.Some? ::
           arrivals[k].created.value == createdOf(arrivals[k].id)
    case Handle(_, at) => s.pending != [] && at >= s.clock
    case Restart => true
    case Vacuum(now, _) => s.pending == [] && now >= s.clock
  }

  function Step(s: State, e: Event, maxAge: Option<nat>): State {
    match e
    case Fetch(arrivals, readings, pinned) =>
      var clock := if readings == [] then s.clock else readings[|readings| - 1];
      if AllVerify(arrivals, readings, pinned, maxAge)
        then s.(pending := arrivals, clock := clock) else s.(clock := clock)
    case Handle(outcome, at) =>
      if s.pending == [] then s else HandleOne(s.(pending := s.pending[1..]), s.pending[0], outcome, at)
    case Restart => s.(pending := [])
    case Vacuum(now, textBefore) => s.(rows := VacuumRows(s.rows, now, RETAIN_DAYS, textBefore), clock := now)
  }

  const FRESH: State := State(map[], [], [], [], 0)

  ghost function After(events: seq<Event>, maxAge: Option<nat>): State {
    if events == [] then FRESH else Step(After(events[..|events| - 1], maxAge), events[|events| - 1], maxAge)
  }

  /** A run: every event is enabled when it happens. */
  ghost predicate IsRun(events: seq<Event>, createdOf: string -> nat, maxAge: Option<nat>) {
    events != [] ==>
      && IsRun(events[..|events| - 1], createdOf, maxAge)
      && Enabled(After(events[..|events| - 1], maxAge), events[|events| - 1], createdOf)
  }

  ghost predicate NoneTwice(s: State) {
    forall j, k | 0 <= j < k < |s.executed| :: s.executed[j].id != s.executed[k].id
  }

  ghost predicate Executed(s: State, id: string) {
    exists k :: 0 <= k < |s.executed| && s.executed[k].id == id
  }

  // ---- the invariant ----

  /** The window closes before the table forgets. */
  predicate SafeAge(maxAge: Option<nat>) {
    maxAge.Some? && AgeCap(maxAge.value) + FUTURE_GRACE_SECS < RETAIN_DAYS * SECS_PER_DAY
  }

  ghost predicate RowSound(s: State, id: string, createdOf: string -> nat)
    requires id in s.rows
  {
    && s.rows[id].processedAt <= s.clock
    && AsSecond(createdOf(id)) <= AsSecond(s.rows[id].processedAt) + FUTURE_GRACE_SECS
    && exists k ::
         0 <= k < |s.executed| && s.executed[k].id == id && StatusText(s.executed[k].status) == s.rows[id].status
  }

  /** An executed id is remembered, or too old to be accepted again. */
  ghost predicate RememberedOrStale(s: State, id: string, createdOf: string -> nat, maxAge: Option<nat>) {
    id in s.rows || (maxAge.Some? && AsSecond(s.clock) - AsSecond(createdOf(id)) > AgeCap(maxAge.value))
  }

  ghost predicate PendingSound(s: State, env: Envelope, createdOf: string -> nat) {
    AsSecond(createdOf(env.id)) <= AsSecond(s.clock) + FUTURE_GRACE_SECS && (Executed(s, env.id) ==> env.id in s.rows)
  }

  ghost predicate ReportSound(s: State, r: Entry) {
    exists k :: 0 <= k < |s.executed| && s.executed[k] == r
  }

  ghost predicate Inv(s: State, createdOf: string -> nat, maxAge: Option<nat>) {
    && NoneTwice(s)
    && (forall id | id in s.rows :: RowSound(s, id, createdOf))
    && (forall k | 0 <= k < |s.executed| :: RememberedOrStale(s, s.executed[k].id, createdOf, maxAge))
    && (forall k | 0 <= k < |s.pending| :: PendingSound(s, s.pending[k], createdOf))
    && (forall k | 0 <= k < |s.reports| :: ReportSound(s, s.reports[k]))
  }

  lemma SecondsMonotone(a: int, b: int)
    requires a <= b
    ensures AsSecond(a) <= AsSecond(b)
  {
  }

  lemma FetchKeeps(s: State, arrivals: seq<Envelope>, readings: seq<nat>, pinned: set<string>,
                   createdOf: string -> nat, maxAge: Option<nat>)
    requires SafeAge(maxAge) && Inv(s, createdOf, maxAge) && Enabled(s, Fetch(arrivals, readings, pinned), createdOf)
    ensures Inv(Step(s, Fetch(arrivals, readings, pinned), maxAge), createdOf, maxAge)
  {
    var s' := Step(s, Fetch(arrivals, readings, pinned), maxAge);
    SecondsMonotone(s.clock, s'.clock);
    LaterClock(s, s', createdOf, maxAge);
    forall k | 0 <= k < |s'.pending|
      ensures PendingSound(s', s'.pending[k], createdOf)
    {
      var env := arrivals[k];
      assert VerifyEnvelope(env, pinned, readings[k], maxAge).None?;
      SecondsMonotone(readings[k], s'.clock);
      SecondsMonotone(s.clock, readings[k]);
      if Executed(s, env.id) {
        var j :| 0 <= j < |s.executed| && s.executed[j].id == env.id;
        assert RememberedOrStale(s, s.executed[j].id, createdOf, maxAge);
      }
    }
  }

  /** Time passing alone breaks nothing. */
  lemma LaterClock(s: State, s': State, createdOf: string -> nat, maxAge: Option<nat>)
    requires Inv(s, createdOf, maxAge) && s.clock <= s'.clock
    requires s'.rows == s.rows && s'.executed == s.executed && s'.reports == s.reports
    ensures NoneTwice(s')
    ensures forall id | id in s'.rows :: RowSound(s', id, createdOf)
    ensures forall k | 0 <= k < |s'.executed| :: RememberedOrStale(s', s'.executed[k].id, createdOf, maxAge)
    ensures forall k | 0 <= k < |s'.reports| :: ReportSound(s', s'.reports[k])
  {
    SecondsMonotone(s.clock, s'.clock);
    forall id | id in s'.rows
      ensures RowSound(s', id, createdOf)
    {
      assert RowSound(s, id, createdOf);
    }
    forall k | 0 <= k < |s'.executed|
      ensures RememberedOrStale(s', s'.executed[k].id, createdOf, maxAge)
    {
      assert RememberedOrStale(s, s.executed[k].id, createdOf, maxAge);
    }
    forall k | 0 <= k < |s'.reports|
      ensures ReportSound(s', s'.reports[k])
    {
      assert ReportSound(s, s.reports[k]);
    }
  }

  lemma VacuumKeeps(s: State, now: nat, textBefore: set<string>, createdOf: string -> nat, maxAge: Option<nat>)
    requires SafeAge(maxAge) && Inv(s, createdOf, maxAge) && Enabled(s, Vacuum(now, textBefore), createdOf)
    ensures Inv(Step(s, Vacuum(now, textBefore), maxAge), createdOf, maxAge)
  {
    var s' := Step(s, Vacuum(now, textBefore), maxAge);
    LaterClock(s, s.(clock := now), createdOf, maxAge);
    forall id | id in s'.rows
      ensures RowSound(s', id, createdOf)
    {
      assert RowSound(s.(clock := now), id, createdOf);
    }
    forall k | 0 <= k < |s'.executed|
      ensures RememberedOrStale(s', s'.executed[k].id, createdOf, maxAge)
    {
      var id := s.executed[k].id;
      assert RememberedOrStale(s.(clock := now), s.executed[k].id, createdOf, maxAge);
      if id in s.rows && id !in s'.rows {
        assert RowSound(s, id, createdOf);
        PrunedIsStale(s.rows[id], id, now, textBefore, createdOf(id), maxAge);
      }
    }
    forall k | 0 <= k < |s'.reports|
      ensures ReportSound(s', s'.reports[k])
    {
      assert ReportSound(s, s.reports[k]);
    }
  }

  /** A row old enough to be pruned is of an assignment too old to be accepted. */
  lemma PrunedIsStale(row: Row, id: string, now: nat, textBefore: set<string>, created: nat, maxAge: Option<nat>)
    requires SafeAge(maxAge) && Pruned(row, id, now, RETAIN_DAYS, textBefore)
    requires AsSecond(created) <= AsSecond(row.processedAt) + FUTURE_GRACE_SECS
    ensures AsSecond(now) - AsSecond(created) > AgeCap(maxAge.value)
  {
    assert AsSecond(now - RETAIN_DAYS * SECS_PER_DAY * SECOND) == AsSecond(now) - RETAIN_DAYS * SECS_PER_DAY;
  }

  lemma HandleKeeps(s: State, outcome: Outcome, at: nat, createdOf: string -> nat, maxAge: Option<nat>)
    requires Inv(s, createdOf, maxAge) && Enabled(s, Handle(outcome, at), createdOf)
    ensures Inv(Step(s, Handle(outcome, at), maxAge), createdOf, maxAge)
  {
    var s' := Step(s, Handle(outcome, at), maxAge);
    var env := s.pending[0];
    assert PendingSound(s, env, createdOf);
    SecondsMonotone(s.clock, at);
    LaterClock(s, s.(clock := at), createdOf, maxAge);
    if env.id in s.rows {
      ReplayKeeps(s, s', env, at, createdOf, maxAge);
    } else {
      FirstTimeKeeps(s, s', env, OutcomeStatus(outcome), at, createdOf, maxAge);
    }
  }

  lemma ReplayKeeps(s: State, s': State, env: Envelope, at: nat, createdOf: string -> nat, maxAge: Option<nat>)
    requires Inv(s, createdOf, maxAge) && s.pending != [] && env == s.pending[0] && env.id in s.rows && s.clock <= at
    requires s' == s.(pending := s.pending[1..], clock := at,
                      reports := s.reports + [Entry(env.id, StatusFromText(s.rows[env.id].status))])
    ensures Inv(s', createdOf, maxAge)
  {
    LaterClock(s, s.(clock := at), createdOf, maxAge);
    SecondsMonotone(s.clock, at);
    assert RowSound(s, env.id, createdOf);
    forall id | id in s'.rows
      ensures RowSound(s', id, createdOf)
    {
      assert RowSound(s.(clock := at), id, createdOf);
    }
    forall k | 0 <= k < |s'.executed|
      ensures RememberedOrStale(s', s'.executed[k].id, createdOf, maxAge)
    {
      assert RememberedOrStale(s.(clock := at), s.executed[k].id, createdOf, maxAge);
    }
    forall k | 0 <= k < |s'.pending|
      ensures PendingSound(s', s'.pending[k], createdOf)
    {
      assert PendingSound(s, s.pending[k + 1], createdOf);
    }
    forall k | 0 <= k < |s'.reports|
      ensures ReportSound(s', s'.reports[k])
    {
      if k < |s.reports| {
        assert ReportSound(s, s.reports[k]);
      } else {
        StoredStatusIsExecuted(s, env.id, createdOf);
      }
    }
  }

  /** The stored text reads back as the status of the execution. */
  lemma StoredStatusIsExecuted(s: State, id: string, createdOf: string -> nat)
    requires id in s.rows && RowSound(s, id, createdOf)
    ensures ReportSound(s, Entry(id, StatusFromText(s.rows[id].status)))
  {
    var e :| 0 <= e < |s.executed| && s.executed[e].id == id && StatusText(s.executed[e].status) == s.rows[id].status;
    assert StatusFromText(StatusText(s.executed[e].status)) == s.executed[e].status;
  }

  ghost predicate FirstTime(s: State, s': State, env: Envelope, status: Status, at: nat) {
    && s.pending != [] && env == s.pending[0] && env.id !in s.rows && s.clock <= at
    && s' == s.(pending := s.pending[1..], rows := s.rows[env.id := Row(at, StatusText(status))],
                executed := s.executed + [Entry(env.id, status)], reports := s.reports + [Entry(env.id, status)],
                clock := at)
  }

  lemma FirstTimeRow(s: State, s': State, env: Envelope, status: Status, at: nat, id: string,
                     createdOf: string -> nat, maxAge: Option<nat>)
    requires Inv(s, createdOf, maxAge) && FirstTime(s, s', env, status, at) && id in s'.rows
    ensures RowSound(s', id, createdOf)
  {
    var n := |s.executed|;
    if id == env.id {
      assert PendingSound(s, env, createdOf);
      SecondsMonotone(s.clock, at);
      assert s'.executed[n] == Entry(env.id, status);
    } else {
      assert RowSound(s, id, createdOf);
      var e :| 0 <= e < n && s.executed[e].id == id && StatusText(s.executed[e].status) == s.rows[id].status;
      assert s'.executed[e] == s.executed[e];
    }
  }

  lemma FirstTimeReport(s: State, s': State, env: Envelope, status: Status, at: nat, k: nat, createdOf: string -> nat,
                        maxAge: Option<nat>)
    requires Inv(s, createdOf, maxAge) && FirstTime(s, s', env, status, at) && k < |s'.reports|
    ensures ReportSound(s', s'.reports[k])
  {
    var n := |s.executed|;
    if k < |s.reports| {
      assert ReportSound(s, s.reports[k]);
      var e :| 0 <= e < n && s.executed[e] == s.reports[k];
      assert s'.executed[e] == s'.reports[k];
    } else {
      assert s'.executed[n] == s'.reports[k];
    }
  }

  lemma FirstTimeKeeps(s: State, s': State, env: Envelope, status: Status, at: nat, createdOf: string -> nat,
                       maxAge: Option<nat>)
    requires Inv(s, createdOf, maxAge) && FirstTime(s, s', env, status, at)
    ensures Inv(s', createdOf, maxAge)
  {
    SecondsMonotone(s.clock, at);
    forall id | id in s'.rows
      ensures RowSound(s', id, createdOf)
    {
      FirstTimeRow(s, s', env, status, at, id, createdOf, maxAge);
    }
    forall k | 0 <= k < |s'.executed|
      ensures RememberedOrStale(s', s'.executed[k].id, createdOf, maxAge)
    {
      if k < |s.executed| {
        assert RememberedOrStale(s, s.executed[k].id, createdOf, maxAge);
      }
    }
    forall k | 0 <= k < |s'.pending|
      ensures PendingSound(s', s'.pending[k], createdOf)
    {
      assert PendingSound(s, s.pending[k + 1], createdOf);
    }
    forall k | 0 <= k < |s'.reports|
      ensures ReportSound(s', s'.reports[k])
    {
      FirstTimeReport(s, s', env, status, at, k, createdOf, maxAge);
    }
    FirstTimeIsFirst(s, s', env, status, at, createdOf, maxAge);
  }

  lemma FirstTimeIsFirst(s: State, s': State, env: Envelope, status: Status, at: nat, createdOf: string -> nat,
                         maxAge: Option<nat>)
    requires Inv(s, createdOf, maxAge) && FirstTime(s, s', env, status, at)
    ensures NoneTwice(s')
  {
    assert PendingSound(s, env, createdOf);
  }

  lemma RestartKeeps(s: State, createdOf: string -> nat, maxAge: Option<nat>)
    requires Inv(s, createdOf, maxAge)
    ensures Inv(Step(s, Restart, maxAge), createdOf, maxAge)
  {
    LaterClock(s, s.(pending := []), createdOf, maxAge);
  }

  lemma {:induction false} InvAlways(events: seq<Event>, createdOf: string -> nat, maxAge: Option<nat>)
    requires SafeAge(maxAge) && IsRun(events, createdOf, maxAge)
    ensures Inv(After(events, maxAge), createdOf, maxAge)
  {
    if events != [] {
      var before, e := events[..|events| - 1], events[|events| - 1];
      InvAlways(before, createdOf, maxAge);
      var s := After(before, maxAge);
      match e
      case Fetch(arrivals, readings, pinned) => FetchKeeps(s, arrivals, readings, pinned, createdOf, maxAge);
      case Handle(outcome, at) => HandleKeeps(s, outcome, at, createdOf, maxAge);
      case Restart => RestartKeeps(s, createdOf, maxAge);
      case Vacuum(now, textBefore) => VacuumKeeps(s, now, textBefore, createdOf, maxAge);
    }
  }

  // ---- main results ----

  /** With a safe age no run executes an assignment twice, and everything ever reported about an assignment carries
      the status its one execution came to. */
  lemma SafeRuns(events: seq<Event>, createdOf: string -> nat, maxAge: Option<nat>)
    requires SafeAge(maxAge) && IsRun(events, createdOf, maxAge)
    ensures NoneTwice(After(events, maxAge))
    ensures
      var s := After(events, maxAge);
      forall j, k | 0 <= j < |s.reports| && 0 <= k < |s.executed| && s.reports[j].id == s.executed[k].id ::
        s.reports[j] == s.executed[k]
  {
    InvAlways(events, createdOf, maxAge);
    var s := After(events, maxAge);
    forall j, k | 0 <= j < |s.reports| && 0 <= k < |s.executed| && s.reports[j].id == s.executed[k].id
      ensures s.reports[j] == s.executed[k]
    {
      assert ReportSound(s, s.reports[j]);
    }
  }

  /** Some fetch brought the envelope, acceptable at its reading and for the keys pinned then. */
  ghost predicate FetchedAcceptable(events: seq<Event>, env: Envelope, maxAge: Option<nat>) {
    exists i, j ::
      && 0 <= i < |events| && events[i].Fetch? && 0 <= j < |events[i].arrivals| && j < |events[i].readings|
      && events[i].arrivals[j] == env && Acceptable(env, events[i].pinned, events[i].readings[j], maxAge)
  }

  lemma FetchedBefore(events: seq<Event>, env: Envelope, maxAge: Option<nat>)
    requires events != [] && FetchedAcceptable(events[..|events| - 1], env, maxAge)
    ensures FetchedAcceptable(events, env, maxAge)
  {
    var before := events[..|events| - 1];
    var i, j :|
      && 0 <= i < |before| && before[i].Fetch? && 0 <= j < |before[i].arrivals| && j < |before[i].readings|
      && before[i].arrivals[j] == env && Acceptable(env, before[i].pinned, before[i].readings[j], maxAge);
    assert events[i] == before[i];
  }

  ghost predicate ComesFromFetch(events: seq<Event>, id: string, maxAge: Option<nat>) {
    exists env: Envelope :: env.id == id && FetchedAcceptable(events, env, maxAge)
  }

  lemma FetchBrings(events: seq<Event>, maxAge: Option<nat>, j: nat)
    requires events != [] && events[|events| - 1].Fetch?
    requires
      var e := events[|events| - 1];
      AllVerify(e.arrivals, e.readings, e.pinned, maxAge) && j < |e.arrivals|
    ensures FetchedAcceptable(events, events[|events| - 1].arrivals[j], maxAge)
  {
    var e := events[|events| - 1];
    VerifiesExactly(e.arrivals[j], e.pinned, e.readings[j], maxAge);
  }

  /** Whatever is executed, in any sequence of events, was fetched in an acceptable envelope. */
  lemma {:induction false} ExecutedWereAcceptable(events: seq<Event>, maxAge: Option<nat>)
    ensures forall k | 0 <= k < |After(events, maxAge).executed| ::
              ComesFromFetch(events, After(events, maxAge).executed[k].id, maxAge)
    ensures forall k | 0 <= k < |After(events, maxAge).pending| ::
              FetchedAcceptable(events, After(events, maxAge).pending[k], maxAge)
  {
    if events != [] {
      var before, last := events[..|events| - 1], events[|events| - 1];
      var s, now := After(before, maxAge), After(events, maxAge);
      ExecutedWereAcceptable(before, maxAge);
      forall k | 0 <= k < |now.pending|
        ensures FetchedAcceptable(events, now.pending[k], maxAge)
      {
        if last.Fetch? && AllVerify(last.arrivals, last.readings, last.pinned, maxAge) {
          FetchBrings(events, maxAge, k);
        } else {
          var from := if last.Handle? then k + 1 else k;
          assert now.pending[k] == s.pending[from];
          FetchedBefore(events, now.pending[k], maxAge);
        }
      }
      forall k | 0 <= k < |now.executed|
        ensures ComesFromFetch(events, now.executed[k].id, maxAge)
      {
        if k < |s.executed| {
          assert now.executed[k] == s.executed[k];
          var env: Envelope :| env.id == s.executed[k].id && FetchedAcceptable(before, env, maxAge);
          FetchedBefore(events, env, maxAge);
        } else {
          FetchedBefore(events, s.pending[0], maxAge);
        }
      }
    }
  }

  // The run that breaks an unsafe age: an envelope dated as far ahead as the grace allows is executed, its row is
  // pruned within the last second of the seventh day, and the envelope is then still fresh.

  const CAPTURED: Envelope := Envelope("A", "K", Some(300 * SECOND), NoExpiry, true)
  const MARKED: nat := SECOND / 10
  const SEVEN_DAYS: nat := 604_800 * SECOND + 9 * (SECOND / 10)

  lemma RunStep(events: seq<Event>, e: Event, createdOf: string -> nat, maxAge: Option<nat>)
    requires IsRun(events, createdOf, maxAge) && Enabled(After(events, maxAge), e, createdOf)
    ensures IsRun(events + [e], createdOf, maxAge)
    ensures After(events + [e], maxAge) == Step(After(events, maxAge), e, maxAge)
  {
    assert (events + [e])[..|events + [e]| - 1] == events;
  }

  ghost function BornAt300(): string -> nat {
    (id: string) => 300 * SECOND
  }

  lemma CapturedVerifies(now: nat, maxAge: Option<nat>)
    requires !SafeAge(maxAge) && (now == 0 || now == SEVEN_DAYS)
    ensures AllVerify([CAPTURED], [now], {"K"}, maxAge)
  {
    assert VerifyEnvelope(CAPTURED, {"K"}, now, maxAge).None?;
  }

  /** Fetched and executed at once, then pruned. */
  lemma ExecutedAndForgotten(maxAge: Option<nat>) returns (events: seq<Event>)
    requires !SafeAge(maxAge)
    ensures IsRun(events, BornAt300(), maxAge)
    ensures After(events, maxAge) == State(map[], [], [Entry("A", Succeeded)], [Entry("A", Succeeded)], SEVEN_DAYS)
  {
    var e0, e1, e2 := Fetch([CAPTURED], [0], {"K"}), Handle(Reported(Succeeded), MARKED), Vacuum(SEVEN_DAYS, {"A"});
    CapturedVerifies(0, maxAge);
    RunStep([], e0, BornAt300(), maxAge);
    var s0 := FRESH.(pending := [CAPTURED]);
    assert After([] + [e0], maxAge) == s0;
    RunStep([] + [e0], e1, BornAt300(), maxAge);
    var row := Row(MARKED, "succeeded");
    var s1 := State(map["A" := row], [], [Entry("A", Succeeded)], [Entry("A", Succeeded)], MARKED);
    assert HandleOne(s0.(pending := []), CAPTURED, Reported(Succeeded), MARKED) == s1;
    assert After([] + [e0] + [e1], maxAge) == s1;
    RunStep([] + [e0] + [e1], e2, BornAt300(), maxAge);
    assert Pruned(row, "A", SEVEN_DAYS, RETAIN_DAYS, {"A"});
    assert VacuumRows(s1.rows, SEVEN_DAYS, RETAIN_DAYS, {"A"}) == map[];
    events := [] + [e0] + [e1] + [e2];
  }

  /** An unsafe age lets an assignment run twice. */
  lemma UnsafeAgeRunsTwice(maxAge: Option<nat>) returns (events: seq<Event>)
    requires !SafeAge(maxAge)
    ensures IsRun(events, BornAt300(), maxAge) && !NoneTwice(After(events, maxAge))
  {
    var before := ExecutedAndForgotten(maxAge);
    var e3, e4 := Fetch([CAPTURED], [SEVEN_DAYS], {"K"}), Handle(Reported(Succeeded), SEVEN_DAYS);
    CapturedVerifies(SEVEN_DAYS, maxAge);
    RunStep(before, e3, BornAt300(), maxAge);
    var s3 := After(before + [e3], maxAge);
    assert s3.pending == [CAPTURED];
    RunStep(before + [e3], e4, BornAt300(), maxAge);
    events := before + [e3] + [e4];
    var s4 := After(events, maxAge);
    assert s4.executed == [Entry("A", Succeeded), Entry("A", Succeeded)];
    assert s4.executed[0].id == s4.executed[1].id;
  }

  /** The creation time bound to each assignment id. */
  datatype Births = Births(of: string -> nat)

  ghost predicate NoRunExecutesTwice(maxAge: Option<nat>) {
    forall events: seq<Event>, births: Births | IsRun(events, births.of, maxAge) :: NoneTwice(After(events, maxAge))
  }

  /** No assignment is ever executed twice, on any run, if and only if the freshness window, widened by the grace for
      future dates, is shorter than the time rows are kept. */
  lemma ExecutedOnceIffWindowCloses(maxAge: Option<nat>)
    ensures NoRunExecutesTwice(maxAge) <==> SafeAge(maxAge)
  {
    if SafeAge(maxAge) {
      forall events: seq<Event>, births: Births | IsRun(events, births.of, maxAge)
        ensures NoneTwice(After(events, maxAge))
      {
        SafeRuns(events, births.of, maxAge);
      }
    } else {
      var events := UnsafeAgeRunsTwice(maxAge);
      var births := Births(BornAt300());
      assert IsRun(events, births.of, maxAge) && !NoneTwice(After(events, maxAge));
    }
  }

  lemma SafeSettings(seconds: nat)
    requires seconds < TWO_64
    ensures SafeAge(Some(seconds)) <==> seconds < 604_500 || seconds >= TWO_63
  {
  }

  /** In the unit of the setting, a `u64`: below 604500 s, the default of 24 hours included, nothing runs twice, nor
      from 2^63 on, where the limit wraps to a negative one. In between, or with the check switched off, some run
      executes an assignment twice. */
  lemma AgeThreshold(seconds: nat)
    requires seconds < TWO_64
    ensures
      var some, none := NoRunExecutesTwice(Some(seconds)), NoRunExecutesTwice(None);
      (some <==> seconds < 604_500 || seconds >= TWO_63) && !none
  {
    SafeSettings(seconds);
    ExecutedOnceIffWindowCloses(Some(seconds));
    ExecutedOnceIffWindowCloses(None);
  }

  // ---- the agent's code ----

  class Store {
    var rows: map<string, Row>

    constructor ()
      ensures rows == map[]
    {
      rows := map[];
    }

    method AssignmentAlreadyProcessed(id: string) returns (prior: Option<string>)
      ensures prior == if id in rows then Some(rows[id].status) else None
    {
      if id in rows {
        return Some(rows[id].status);
      }
      return None;
    }

    method MarkAssignmentProcessed(id: string, status: string, now: nat)
      modifies this
      ensures rows == Mark(old(rows), id, status, now)
      ensures rows == if id in old(rows) then old(rows) else old(rows)[id := Row(now, status)]
    {
      if id !in rows {
        rows := rows[id := Row(now, status)];
      }
    }

    method VacuumReplay(retainDays: int, now: nat, textBefore: set<string>) returns (removed: nat)
      modifies this
      ensures rows == VacuumRows(old(rows), now, retainDays, textBefore)
      ensures removed == |old(rows)| - |rows|
      ensures forall id | id in rows :: id in old(rows) && rows[id] == old(rows)[id]
      ensures forall id | id in old(rows) ::
                var age := now / 1_000_000_000 - old(rows)[id].processedAt / 1_000_000_000;
                && (age < retainDays * 86_400 ==> id in rows)
                && (age > retainDays * 86_400 ==> id !in rows)
                && (age == retainDays * 86_400 ==> (id in rows <==> id !in textBefore))
    {
      var gone := set id | id in rows && Pruned(rows[id], id, now, retainDays, textBefore);
      RemovedCount(rows, gone);
      removed := |gone|;
      rows := rows - gone;
    }
  }

  lemma RemovedCount(rows: map<string, Row>, gone: set<string>)
    requires gone <= rows.Keys
    ensures |rows - gone| == |rows| - |gone|
  {
    assert (rows - gone).Keys == rows.Keys - gone;
    assert |rows.Keys - gone| == |rows.Keys| - |gone|;
  }

  /** The state after handling the pending envelopes one after the other. */
  ghost function HandleAll(s: State, outcomes: seq<Outcome>, times: seq<nat>, k: nat, maxAge: Option<nat>): State
    requires k <= |outcomes| && k <= |times|
  {
    if k == 0 then s
    else Step(HandleAll(s, outcomes, times, k - 1, maxAge), Handle(outcomes[k - 1], times[k - 1]), maxAge)
  }

  /** How many of the first `k` envelopes were new and came back with a report. */
  ghost function HandledCount(s: State, outcomes: seq<Outcome>, times: seq<nat>, k: nat, maxAge: Option<nat>): nat
    requires k <= |outcomes| && k <= |times|
  {
    if k == 0 then 0
    else
      var before := HandleAll(s, outcomes, times, k - 1, maxAge);
      HandledCount(s, outcomes, times, k - 1, maxAge)
      + (if before.pending != [] && before.pending[0].id !in before.rows && outcomes[k - 1].Reported? then 1 else 0)
  }

  /** What the loop knows before its `k`th turn. */
  ghost predicate DrainedSoFar(now: State, handled: nat, fetched: State, arrivals: seq<Envelope>,
                               outcomes: seq<Outcome>, times: seq<nat>, k: nat, maxAge: Option<nat>)
    requires k <= |arrivals| == |outcomes| == |times|
  {
    && now == HandleAll(fetched, outcomes, times, k, maxAge)
    && now.pending == arrivals[k..]
    && handled == HandledCount(fetched, outcomes, times, k, maxAge)
  }

  lemma DrainStep(now: State, handled: nat, fetched: State, arrivals: seq<Envelope>, outcomes: seq<Outcome>,
                  times: seq<nat>, k: nat, maxAge: Option<nat>)
    requires k < |arrivals| == |outcomes| == |times|
    requires DrainedSoFar(now, handled, fetched, arrivals, outcomes, times, k, maxAge)
    ensures
      var next := HandleOne(now.(pending := arrivals[k + 1..]), arrivals[k], outcomes[k], times[k]);
      var more := if arrivals[k].id !in now.rows && outcomes[k].Reported? then 1 else 0;
      && next.clock == times[k]
      && DrainedSoFar(next, handled + more, fetched, arrivals, outcomes, times, k + 1, maxAge)
  {
    assert arrivals[k..][1..] == arrivals[k + 1..] && arrivals[k..][0] == arrivals[k];
  }

  class Agent {
    const store: Store
    const maxAge: Option<nat>
    var executed: seq<Entry>
    var reports: seq<Entry>

    constructor (store: Store, maxAge: Option<nat>)
      ensures this.store == store && this.maxAge == maxAge && executed == [] && reports == []
    {
      this.store, this.maxAge := store, maxAge;
      executed, reports := [], [];
    }

    ghost function View(pending: seq<Envelope>, clock: nat): State
      reads this, store
    {
      State(store.rows, pending, executed, reports, clock)
    }

    /** Every envelope must verify, or the whole answer is refused. */
    method FetchAssignments(arrivals: seq<Envelope>, readings: seq<nat>, pinned: set<string>)
      returns (list: Option<seq<Envelope>>)
      requires |readings| == |arrivals|
      ensures list == if AllVerify(arrivals, readings, pinned, maxAge) then Some(arrivals) else None
      ensures list ==
              if forall k | 0 <= k < |arrivals| :: Acceptable(arrivals[k], pinned, readings[k], maxAge)
              then Some(arrivals) else None
    {
      for k := 0 to |arrivals|
        invariant forall j | 0 <= j < k :: VerifyEnvelope(arrivals[j], pinned, readings[j], maxAge).None?
        invariant forall j | 0 <= j < k :: Acceptable(arrivals[j], pinned, readings[j], maxAge)
      {
        VerifiesExactly(arrivals[k], pinned, readings[k], maxAge);
        if VerifyEnvelope(arrivals[k], pinned, readings[k], maxAge).Some? {
          return None;
        }
      }
      return Some(arrivals);
    }

    /** Fetch, then for each envelope look up, execute if new, record and report. `outcomes` and `times` are what
        executing each would come to and when it is recorded. */
    method DrainAssignments(arrivals: seq<Envelope>, readings: seq<nat>, pinned: set<string>, outcomes: seq<Outcome>,
                            times: seq<nat>, ghost clock: nat)
      returns (handled: nat)
      requires |readings| == |arrivals| == |outcomes| == |times|
      modifies this, store
      ensures
        var fetched := Step(old(View([], clock)), Fetch(arrivals, readings, pinned), maxAge);
        if !AllVerify(arrivals, readings, pinned, maxAge) || arrivals == [] then
          View([], fetched.clock) == fetched && handled == 0
        else
          && View([], times[|times| - 1]) == HandleAll(fetched, outcomes, times, |arrivals|, maxAge)
          && handled == HandledCount(fetched, outcomes, times, |arrivals|, maxAge)
    {
      handled := 0;
      ghost var fetched := Step(View([], clock), Fetch(arrivals, readings, pinned), maxAge);
      var list := FetchAssignments(arrivals, readings, pinned);
      if list.None? {
        return;
      }
      ghost var now := fetched.clock;
      for k := 0 to |arrivals|
        invariant now == if k == 0 then fetched.clock else times[k - 1]
        invariant DrainedSoFar(View(arrivals[k..], now), handled, fetched, arrivals, outcomes, times, k, maxAge)
      {
        DrainStep(View(arrivals[k..], now), handled, fetched, arrivals, outcomes, times, k, maxAge);
        var reported := HandleEnvelope(arrivals[k], outcomes[k], times[k], arrivals[k + 1..], now);
        now := times[k];
        handled := handled + if reported then 1 else 0;
      }
    }

    /** Look the assignment up; execute, record and report it if it is new, else report the stored status again. */
    method HandleEnvelope(env: Envelope, outcome: Outcome, at: nat, ghost rest: seq<Envelope>, ghost clock: nat)
      returns (handled: bool)
      modifies this, store
      ensures View(rest, at) == HandleOne(old(View(rest, clock)), env, outcome, at)
      ensures handled <==> env.id !in old(store.rows) && outcome.Reported?
      ensures env.id !in old(store.rows) ==>
                var status := if outcome.Reported? then outcome.status else Failed;
                var text :=
                  match status
                  case Succeeded => "succeeded" case PartiallyApplied => "partially_applied" case Failed => "failed";
                && store.rows == old(store.rows)[env.id := Row(at, text)]
                && executed == old(executed) + [Entry(env.id, status)]
                && reports == old(reports) + [Entry(env.id, status)]
      ensures env.id in old(store.rows) ==>
                var text := old(store.rows)[env.id].status;
                var status :=
                  if text == "succeeded" then Succeeded
                  else if text == "partially_applied" then PartiallyApplied
                  else Failed;
                && store.rows == old(store.rows) && executed == old(executed)
                && reports == old(reports) + [Entry(env.id, status)]
    {
      var prior := store.AssignmentAlreadyProcessed(env.id);
      if prior.Some? {
        reports := reports + [Entry(env.id, StatusFromText(prior.value))];
        return false;
      }
      match outcome {
        case Reported(status) =>
          executed := executed + [Entry(env.id, status)];
          store.MarkAssignmentProcessed(env.id, StatusText(status), at);
          reports := reports + [Entry(env.id, status)];
          return true;
        case Error =>
          executed := executed + [Entry(env.id, Failed)];
          store.MarkAssignmentProcessed(env.id, "failed", at);
          reports := reports + [Entry(env.id, Failed)];
          return false;
      }
    }
  }
}
