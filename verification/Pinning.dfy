/** How an agent pins the server's signing keys and follows their rotation (`crates/iac-agent/src/remote.rs`), alone
    against any server and together with the rotating server of `Signing`. Key material is opaque: one value stands for
    a key pair. */
module Pinning {
  import opened Common
  import opened Signing

  datatype ServerKey = ServerKey(keyId: string, publicKey: string)

  datatype Bundle = Bundle(activeId: string, keys: seq<ServerKey>)

  /** Length of a decoded public key. */
  const KEY_LENGTH: nat := 32

  predicate Decodable(publicKey: string) {
    |publicKey| == KEY_LENGTH
  }

  /** Keys by id; a later entry with the same id wins, as when a map is filled in order. */
  ghost function ById(keys: seq<ServerKey>): map<string, string> {
    if keys == [] then map[]
    else ById(keys[..|keys| - 1])[keys[|keys| - 1].keyId := keys[|keys| - 1].publicKey]
  }

  lemma {:induction false} ByIdEntries(keys: seq<ServerKey>)
    ensures forall id | id in ById(keys) :: ServerKey(id, ById(keys)[id]) in keys
    ensures forall k | 0 <= k < |keys| :: keys[k].keyId in ById(keys)
  {
    if keys != [] {
      ByIdEntries(keys[..|keys| - 1]);
    }
  }

  /** The check on every fetched bundle. */
  ghost predicate Consistent(b: Bundle) {
    b.keys != [] && b.activeId in ById(b.keys)
  }

  /** Some pinned id is still there, and no pinned id has another key. */
  ghost predicate Accepts(pinned: seq<ServerKey>, b: Bundle) {
    && Consistent(b)
    && (exists k :: 0 <= k < |pinned| && pinned[k].keyId in ById(b.keys))
    && (forall k | 0 <= k < |pinned| && pinned[k].keyId in ById(b.keys) ::
          ById(b.keys)[pinned[k].keyId] == pinned[k].publicKey)
  }

  /** The last entry with the id is at `k`. */
  ghost predicate LastWithId(keys: seq<ServerKey>, k: nat, id: string) {
    k < |keys| && keys[k].keyId == id && forall j | k < j < |keys| :: keys[j].keyId != id
  }

  lemma {:induction false} ByIdLast(keys: seq<ServerKey>, id: string)
    ensures id in ById(keys) <==> exists k: nat :: LastWithId(keys, k, id)
    ensures forall k: nat | LastWithId(keys, k, id) :: id in ById(keys) && ById(keys)[id] == keys[k].publicKey
  {
    if keys != [] {
      var before, n := keys[..|keys| - 1], |keys| - 1;
      ByIdLast(before, id);
      if keys[n].keyId == id {
        assert LastWithId(keys, n, id);
      } else {
        forall k: nat
          ensures LastWithId(keys, k, id) <==> LastWithId(before, k, id)
        {
        }
      }
    }
  }

  /** A consistent bundle lists its active id. */
  lemma ConsistentExactly(b: Bundle)
    ensures Consistent(b) <==> exists k :: 0 <= k < |b.keys| && b.keys[k].keyId == b.activeId
  {
    ByIdEntries(b.keys);
    ByIdLast(b.keys, b.activeId);
  }

  /** Acceptance in terms of the lists: the active id is listed, some pinned id is, and the last entry for any pinned id
      has the pinned key. */
  lemma AcceptsExactly(pinned: seq<ServerKey>, b: Bundle)
    ensures Accepts(pinned, b) <==>
            && (exists k :: 0 <= k < |b.keys| && b.keys[k].keyId == b.activeId)
            && (exists p, k :: 0 <= p < |pinned| && 0 <= k < |b.keys| && pinned[p].keyId == b.keys[k].keyId)
            && (forall p, k: nat | 0 <= p < |pinned| && LastWithId(b.keys, k, pinned[p].keyId) ::
                  b.keys[k].publicKey == pinned[p].publicKey)
  {
    ByIdEntries(b.keys);
    ByIdLast(b.keys, b.activeId);
    forall p | 0 <= p < |pinned|
      ensures pinned[p].keyId in ById(b.keys) <==> exists k: nat :: LastWithId(b.keys, k, pinned[p].keyId)
      ensures forall k: nat | LastWithId(b.keys, k, pinned[p].keyId) ::
                pinned[p].keyId in ById(b.keys) && ById(b.keys)[pinned[p].keyId] == b.keys[k].publicKey
    {
      ByIdLast(b.keys, pinned[p].keyId);
    }
  }

  // ---- the agent's code ----

  method CompileById(keys: seq<ServerKey>) returns (byId: map<string, string>)
    ensures byId == ById(keys)
  {
    byId := map[];
    for k := 0 to |keys|
      invariant byId == ById(keys[..k])
    {
      assert keys[..k + 1][..k] == keys[..k];
      byId := byId[keys[k].keyId := keys[k].publicKey];
    }
    assert keys[..|keys|] == keys;
  }

  /** `build_verifier_set`: every key must decode. */
  method BuildVerifierSet(keys: seq<ServerKey>) returns (verifiers: Option<map<string, string>>)
    ensures verifiers.Some? <==> forall k | 0 <= k < |keys| :: |keys[k].publicKey| == 32
    ensures verifiers.Some? ==> verifiers.value == ById(keys)
  {
    var out: map<string, string> := map[];
    for k := 0 to |keys|
      invariant out == ById(keys[..k])
      invariant forall j | 0 <= j < k :: Decodable(keys[j].publicKey)
    {
      assert keys[..k + 1][..k] == keys[..k];
      if !Decodable(keys[k].publicKey) {
        return None;
      }
      out := out[keys[k].keyId := keys[k].publicKey];
    }
    assert keys[..|keys|] == keys;
    return Some(out);
  }

  /** The overlap and divergence checks. */
  method Check(pinned: seq<ServerKey>, b: Bundle) returns (ok: bool)
    ensures ok <==> Accepts(pinned, b)
  {
    var byId := CompileById(b.keys);
    if b.keys == [] || b.activeId !in byId {
      return false;
    }
    var overlap := false;
    for k := 0 to |pinned|
      invariant overlap <==> exists j :: 0 <= j < k && pinned[j].keyId in byId
    {
      overlap := overlap || pinned[k].keyId in byId;
    }
    if !overlap {
      return false;
    }
    for k := 0 to |pinned|
      invariant forall j | 0 <= j < k && pinned[j].keyId in byId :: byId[pinned[j].keyId] == pinned[j].publicKey
    {
      if pinned[k].keyId in byId && byId[pinned[k].keyId] != pinned[k].publicKey {
        return false;
      }
    }
    return true;
  }

  class Client {
    /** `identity.server_pubkeys` in memory, its copy on disk, and the compiled verifiers. */
    var pinned: seq<ServerKey>
    var persisted: seq<ServerKey>
    var verifiers: map<string, string>

    ghost predicate Valid()
      reads this
    {
      verifiers == ById(pinned)
    }

    constructor (keys: seq<ServerKey>, verifiers: map<string, string>)
      requires verifiers == ById(keys)
      ensures Valid() && pinned == keys && persisted == keys
    {
      pinned, persisted := keys, keys;
      this.verifiers := verifiers;
    }

    /** Take over the server's bundle, or keep everything as it was. `fetched` is absent when the request failed. */
    method RefreshSigningKeys(fetched: Option<Bundle>, working: bool) returns (ok: bool)
      requires Valid()
      modifies this
      ensures Valid()
      ensures ok <==> fetched.Some? && Accepts(old(pinned), fetched.value) && working
                      && forall k | 0 <= k < |fetched.value.keys| :: |fetched.value.keys[k].publicKey| == 32
      ensures ok ==> pinned == fetched.value.keys && persisted == fetched.value.keys
      ensures !ok ==> pinned == old(pinned) && verifiers == old(verifiers)
      ensures persisted == old(persisted) ||
              (fetched.Some? && Accepts(old(pinned), fetched.value) && persisted == fetched.value.keys)
    {
      if fetched.None? {
        return false;
      }
      var accepted := Check(pinned, fetched.value);
      if !accepted || !working {
        return false;
      }
      persisted := fetched.value.keys;
      var compiled := BuildVerifierSet(fetched.value.keys);
      if compiled.None? {
        return false;
      }
      pinned, verifiers := fetched.value.keys, compiled.value;
      return true;
    }
  }

  /** Connect with the keys of the identity file: pin everything on first contact, otherwise demand the overlap.
      `fetched` is absent when the request failed, `working` is false when the file cannot be written. `persisted` is
      what the file holds afterwards: it is rewritten before the keys are decoded, so that a bundle with a key that does
      not decode is pinned although connecting fails. */
  method Connect(stored: seq<ServerKey>, fetched: Option<Bundle>, working: bool)
    returns (client: Client?, persisted: seq<ServerKey>)
    ensures persisted ==
            if fetched.Some? && Consistent(fetched.value) && (stored == [] || Accepts(stored, fetched.value)) && working
            then fetched.value.keys else stored
    ensures client != null <==>
              && fetched.Some? && working
              && Consistent(fetched.value) && (stored == [] || Accepts(stored, fetched.value))
              && forall k | 0 <= k < |fetched.value.keys| :: |fetched.value.keys[k].publicKey| == 32
    ensures stored != [] && (client != null || persisted != stored) ==>
              && fetched.Some? && persisted == fetched.value.keys
              && (exists p :: p in stored && p in persisted)
              && (forall p, k: nat | 0 <= p < |stored| && LastWithId(persisted, k, stored[p].keyId) ::
                    persisted[k].publicKey == stored[p].publicKey)
    ensures fetched.Some? && stored != []
            && (forall p, k | 0 <= p < |stored| && 0 <= k < |fetched.value.keys| ::
                  stored[p].keyId != fetched.value.keys[k].keyId) ==>
              client == null && persisted == stored
    ensures client != null ==> fresh(client) && client.Valid() && client.pinned == client.persisted == persisted
  {
    client, persisted := null, stored;
    if fetched.None? {
      return;
    }
    AcceptsExactly(stored, fetched.value);
    if Accepts(stored, fetched.value) {
      AcceptedBundleContinues(stored, fetched.value);
    }
    var b := fetched.value;
    var byId := CompileById(b.keys);
    if b.keys == [] || b.activeId !in byId {
      return;
    }
    if stored != [] {
      var accepted := Check(stored, b);
      if !accepted {
        return;
      }
    }
    if !working {
      return;
    }
    persisted := b.keys;
    var verifiers := BuildVerifierSet(b.keys);
    if verifiers.None? {
      return;
    }
    client := new Client(b.keys, verifiers.value);
  }

  // ---- against any server ----

  /** An accepted bundle shares a full (id, key) pair with what was pinned, and both agree on every common id. */
  lemma AcceptedBundleContinues(pinned: seq<ServerKey>, b: Bundle)
    requires Accepts(pinned, b)
    ensures exists p :: p in pinned && p in b.keys
    ensures forall id | id in ById(pinned) && id in ById(b.keys) :: ById(b.keys)[id] == ById(pinned)[id]
  {
    ByIdEntries(b.keys);
    ByIdEntries(pinned);
    var k :| 0 <= k < |pinned| && pinned[k].keyId in ById(b.keys);
    assert pinned[k] == ServerKey(pinned[k].keyId, ById(b.keys)[pinned[k].keyId]);
    assert pinned[k] in pinned && pinned[k] in b.keys;
    forall id | id in ById(pinned) && id in ById(b.keys)
      ensures ById(b.keys)[id] == ById(pinned)[id]
    {
      var j :| 0 <= j < |pinned| && pinned[j] == ServerKey(id, ById(pinned)[id]);
    }
  }

  /** Bundles accepted one after the other. */
  ghost predicate AcceptedInTurn(bundles: seq<Bundle>) {
    forall i | 0 <= i < |bundles| - 1 :: Accepts(bundles[i].keys, bundles[i + 1])
  }

  /** However the server behaves, an id that stays pinned keeps its key. */
  lemma {:induction false} PinnedIdKeepsItsKey(bundles: seq<Bundle>, id: string)
    requires bundles != [] && AcceptedInTurn(bundles)
    requires forall i | 0 <= i < |bundles| :: id in ById(bundles[i].keys)
    ensures ById(bundles[|bundles| - 1].keys)[id] == ById(bundles[0].keys)[id]
  {
    if |bundles| > 1 {
      var shorter := bundles[..|bundles| - 1];
      PinnedIdKeepsItsKey(shorter, id);
      AcceptedBundleContinues(bundles[|bundles| - 2].keys, bundles[|bundles| - 1]);
    }
  }

  // ---- together with the rotating server ----

  /** What an honest server publishes: its active id and each key it accepts, once. */
  ghost predicate Publishes(s: Signer, b: Bundle) {
    && b.activeId == s.active
    && ById(b.keys) == s.keys
  }

  /** `history` is every key the server ever had; `atRisk` the ids that were active at the last refresh or since. */
  datatype World = World(server: Signer, history: map<string, Secret>, pinned: map<string, Secret>, atRisk: set<string>)

  datatype WorldEvent = ServerDoes(e: Event) | AgentRefreshes(working: bool)

  ghost predicate SharesId(w: World) {
    exists id :: id in w.pinned && id in w.server.keys
  }

  ghost predicate RefreshAccepted(w: World) {
    && SharesId(w)
    && forall id | id in w.pinned && id in w.server.keys :: w.server.keys[id] == w.pinned[id]
  }

  ghost function StepWorld(w: World, e: WorldEvent): World {
    match e
    case ServerDoes(se) =>
      var server := Step(w.server, se);
      w.(server := server,
         history := if se.Rotate? then w.history[se.newId := se.secret] else w.history,
         atRisk := w.atRisk + {server.active})
    case AgentRefreshes(working) =>
      if working && RefreshAccepted(w) then w.(pinned := w.server.keys, atRisk := {w.server.active}) else w
  }

  /** Ids are never reused. */
  ghost predicate EnabledWorld(w: World, e: WorldEvent) {
    e.ServerDoes? && e.e.Rotate? ==> e.e.newId !in w.history
  }

  ghost predicate StartsPinned(w: World) {
    Loaded(w.server) && w.history == w.server.keys && w.pinned == w.server.keys && w.atRisk == {w.server.active}
  }

  ghost function AfterWorld(w: World, events: seq<WorldEvent>): World {
    if events == [] then w else StepWorld(AfterWorld(w, events[..|events| - 1]), events[|events| - 1])
  }

  ghost predicate IsWorldRun(w: World, events: seq<WorldEvent>) {
    events != [] ==>
      && IsWorldRun(w, events[..|events| - 1])
      && EnabledWorld(AfterWorld(w, events[..|events| - 1]), events[|events| - 1])
  }

  /** A key is retired only after the agent has refreshed since it stopped being active. */
  ghost predicate Patient(w: World, events: seq<WorldEvent>) {
    events != [] ==>
      && Patient(w, events[..|events| - 1])
      && var e := events[|events| - 1];
         e.ServerDoes? && e.e.Retire? ==> e.e.id !in AfterWorld(w, events[..|events| - 1]).atRisk
  }

  ghost predicate Within(keys: map<string, Secret>, history: map<string, Secret>) {
    forall id | id in keys :: id in history && history[id] == keys[id]
  }

  /** Everything anyone holds is in the history; a pinned key that is still on disk is still accepted. */
  ghost predicate WorldSound(w: World) {
    && Sound(w.server)
    && Within(w.server.keys, w.history) && Within(w.server.diskKeys, w.history) && Within(w.pinned, w.history)
    && (forall id | id in w.pinned && id in w.server.diskKeys :: id in w.server.keys)
  }

  lemma StepKeepsWorldSound(w: World, e: WorldEvent)
    requires WorldSound(w) && EnabledWorld(w, e)
    ensures WorldSound(StepWorld(w, e))
  {
    match e
    case ServerDoes(se) => StepKeepsSound(w.server, se);
    case AgentRefreshes(_) =>
  }

  lemma {:induction false} WorldAlwaysSound(w: World, events: seq<WorldEvent>)
    requires StartsPinned(w) && IsWorldRun(w, events)
    ensures WorldSound(AfterWorld(w, events))
  {
    if events != [] {
      WorldAlwaysSound(w, events[..|events| - 1]);
      StepKeepsWorldSound(AfterWorld(w, events[..|events| - 1]), events[|events| - 1]);
    }
  }

  /** In every run the pinned pairs are pairs of the server's history, and a refresh is accepted exactly when some
      pinned key has not been retired: the divergence check never fires against an honest server. */
  lemma RefreshWorksIffSomeKeyLives(w: World, events: seq<WorldEvent>)
    requires StartsPinned(w) && IsWorldRun(w, events)
    ensures
      var now := AfterWorld(w, events);
      Within(now.pinned, now.history) && (RefreshAccepted(now) <==> SharesId(now))
  {
    WorldAlwaysSound(w, events);
  }

  /** The agent's own test on a published bundle is the one the runs speak of. */
  lemma PublishedBundleTest(w: World, pinned: seq<ServerKey>, b: Bundle)
    requires WorldSound(w) && Publishes(w.server, b)
    requires ById(pinned) == w.pinned
    requires forall k | 0 <= k < |pinned| ::
               pinned[k].keyId in w.pinned && w.pinned[pinned[k].keyId] == pinned[k].publicKey
    ensures Accepts(pinned, b) <==> RefreshAccepted(w)
  {
    ByIdEntries(pinned);
    if RefreshAccepted(w) {
      var id :| id in w.pinned && id in w.server.keys;
      var k :| 0 <= k < |pinned| && pinned[k] == ServerKey(id, ById(pinned)[id]);
      assert pinned[k].keyId in ById(b.keys);
    }
    if Accepts(pinned, b) {
      var k :| 0 <= k < |pinned| && pinned[k].keyId in ById(b.keys);
      assert pinned[k].keyId in w.pinned;
      forall id | id in w.pinned && id in w.server.keys
        ensures w.server.keys[id] == w.pinned[id]
      {
        var j :| 0 <= j < |pinned| && pinned[j] == ServerKey(id, ById(pinned)[id]);
      }
    }
  }

  /** Once no pinned key is accepted any more, no later event brings one back: only the operator can. */
  lemma {:induction false} LockoutIsPermanent(w: World, events: seq<WorldEvent>, k: nat)
    requires StartsPinned(w) && IsWorldRun(w, events) && k <= |events| && !SharesId(AfterWorld(w, events[..k]))
    ensures !SharesId(AfterWorld(w, events))
  {
    if k < |events| {
      var before := events[..|events| - 1];
      assert before[..k] == events[..k];
      LockoutIsPermanent(w, before, k);
      WorldAlwaysSound(w, before);
      LockoutStays(AfterWorld(w, before), events[|events| - 1]);
    } else {
      assert events[..k] == events;
    }
  }

  lemma LockoutStays(w: World, e: WorldEvent)
    requires WorldSound(w) && EnabledWorld(w, e) && !SharesId(w)
    ensures !SharesId(StepWorld(w, e))
  {
    var w' := StepWorld(w, e);
    forall id | id in w'.pinned
      ensures id !in w'.server.keys
    {
      assert id in w.pinned && id !in w.server.keys && id !in w.server.diskKeys;
    }
  }

  /** The key that was active at the last refresh is at risk, pinned, accepted and on disk. */
  ghost predicate Anchored(w: World) {
    && w.server.active in w.atRisk
    && exists id :: id in w.atRisk && id in w.pinned && id in w.server.keys && id in w.server.diskKeys
  }

  lemma StepKeepsAnchor(w: World, e: WorldEvent)
    requires WorldSound(w) && EnabledWorld(w, e) && Anchored(w)
    requires e.ServerDoes? && e.e.Retire? ==> e.e.id !in w.atRisk
    ensures Anchored(StepWorld(w, e))
  {
    var id :| id in w.atRisk && id in w.pinned && id in w.server.keys && id in w.server.diskKeys;
    var w' := StepWorld(w, e);
    match e
    case ServerDoes(se) =>
      assert id in w'.atRisk && id in w'.pinned && id in w'.server.keys && id in w'.server.diskKeys;
    case AgentRefreshes(working) =>
      if working && RefreshAccepted(w) {
        var active := w.server.active;
        assert active in w'.atRisk && active in w'.pinned && active in w'.server.keys && active in w'.server.diskKeys;
      }
  }

  /** With patient retirement the agent is never locked out, whatever disk operations fail on either side. */
  lemma {:induction false} PatientRetirementNeverLocksOut(w: World, events: seq<WorldEvent>)
    requires StartsPinned(w) && IsWorldRun(w, events) && Patient(w, events)
    ensures Anchored(AfterWorld(w, events)) && RefreshAccepted(AfterWorld(w, events))
  {
    if events != [] {
      PatientRetirementNeverLocksOut(w, events[..|events| - 1]);
      WorldAlwaysSound(w, events[..|events| - 1]);
      StepKeepsAnchor(AfterWorld(w, events[..|events| - 1]), events[|events| - 1]);
    } else {
      assert w.server.active in w.pinned;
    }
    RefreshWorksIffSomeKeyLives(w, events);
  }

  /** One completed retirement locks out exactly when no other pinned key is on disk, whatever went on before. */
  lemma RetirementLocksOutIff(w: World, events: seq<WorldEvent>, id: string)
    requires StartsPinned(w) && IsWorldRun(w, events) && Retirable(AfterWorld(w, events).server, id)
    ensures
      var now := AfterWorld(w, events);
      var after := StepWorld(now, ServerDoes(Retire(id, RetirementDone)));
      RefreshAccepted(after) <==> exists other :: other != id && other in now.pinned && other in now.server.diskKeys
  {
    var now, e := AfterWorld(w, events), ServerDoes(Retire(id, RetirementDone));
    var after := StepWorld(now, e);
    WorldAlwaysSound(w, events);
    StepKeepsWorldSound(now, e);
    assert after.server.keys == now.server.diskKeys - {id} && after.pinned == now.pinned;
    if other :| other != id && other in now.pinned && other in now.server.diskKeys {
      assert other in after.pinned && other in after.server.keys;
    }
  }

  /** A key of full length. */
  function FullKey(c: char): (key: Secret)
    ensures Decodable(key)
  {
    seq(KEY_LENGTH, i => c)
  }

  /** Without patience it can be: rotate and retire the old key before the agent has looked. Every key has full
      length. */
  lemma ImpatientRetirementLocksOut()
    ensures exists w, events ::
              && StartsPinned(w) && IsWorldRun(w, events) && !SharesId(AfterWorld(w, events))
              && forall id | id in AfterWorld(w, events).history :: Decodable(AfterWorld(w, events).history[id])
  {
    var first, second := FullKey('1'), FullKey('2');
    var keys: map<string, Secret> := map["a" := first];
    var w := World(Signer(keys, "a", keys, "a"), keys, keys, {"a"});
    var e0, e1 := ServerDoes(Rotate("b", second, RotationDone)), ServerDoes(Retire("a", RetirementDone));
    var w1 := StepWorld(w, e0);
    assert w1.server == Signer(map["a" := first, "b" := second], "b", map["a" := first, "b" := second], "b");
    var w2 := StepWorld(w1, e1);
    assert "a" !in w2.server.keys && w2.pinned.Keys == {"a"} && w2.history.Keys == {"a", "b"};
    var one, events := [e0], [e0, e1];
    assert one[..|one| - 1] == [] && events[..|events| - 1] == one;
    assert AfterWorld(w, []) == w && AfterWorld(w, one) == w1;
    assert AfterWorld(w, events) == w2;
    assert IsWorldRun(w, []) && IsWorldRun(w, [e0]) && IsWorldRun(w, events);
    assert StartsPinned(w);
  }
}
