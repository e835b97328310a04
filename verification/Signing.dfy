/** The server's signing-key set (`crates/iac-controlplane/src/signing.rs`): what is on disk, what is in memory, and how
    rotation and retirement move both when any disk operation may fail. Secrets are opaque. */
module Signing {

  type Secret = string

  /** `diskKeys` are the `<id>.bin` files, `diskActive` the content of `active`; `keys` and `active` the state in
      memory. */
  datatype Signer = Signer(diskKeys: map<string, Secret>, diskActive: string, keys: map<string, Secret>, active: string)

  /** How far a rotation got before a disk operation failed; `RotationDone` if none did. */
  datatype RotateStage = NothingWritten | KeyWritten | PointerWritten | RotationDone

  /** How far a retirement got. */
  datatype RetireStage = NothingRemoved | KeyRemoved | RetirementDone

  datatype Event = Rotate(newId: string, secret: Secret, upTo: RotateStage) | Retire(id: string, until: RetireStage)
    | Restart

  /** `load_set`, when it succeeds. */
  function Reload(s: Signer): Signer {
    s.(keys := s.diskKeys, active := s.diskActive)
  }

  function RotateTo(s: Signer, newId: string, secret: Secret, upTo: RotateStage): Signer {
    var withKey := s.(diskKeys := s.diskKeys[newId := secret]);
    var withPointer := withKey.(diskActive := newId);
    match upTo
    case NothingWritten => s
    case KeyWritten => withKey
    case PointerWritten => withPointer
    case RotationDone => Reload(withPointer)
  }

  /** The active key and unknown ids are refused before anything is touched. */
  predicate Retirable(s: Signer, id: string) {
    id != s.active && id in s.keys
  }

  function RetireTo(s: Signer, id: string, until: RetireStage): Signer {
    if !Retirable(s, id) then s
    else
      var without := s.(diskKeys := s.diskKeys - {id});
      match until
      case NothingRemoved => s
      case KeyRemoved => without
      case RetirementDone => Reload(without)
  }

  function Step(s: Signer, e: Event): Signer {
    match e
    case Rotate(newId, secret, upTo) => RotateTo(s, newId, secret, upTo)
    case Retire(id, until) => RetireTo(s, id, until)
    case Restart => Reload(s)
  }

  /** New ids are fresh. */
  ghost predicate Enabled(s: Signer, e: Event) {
    e.Rotate? ==> e.newId !in s.diskKeys && e.newId !in s.keys
  }

  /** A set that has just been loaded. */
  ghost predicate Loaded(s: Signer) {
    s.diskActive in s.diskKeys && s.keys == s.diskKeys && s.active == s.diskActive
  }

  ghost function After(s: Signer, events: seq<Event>): Signer {
    if events == [] then s else Step(After(s, events[..|events| - 1]), events[|events| - 1])
  }

  ghost predicate IsRun(s: Signer, events: seq<Event>) {
    events != [] ==>
      && IsRun(s, events[..|events| - 1])
      && Enabled(After(s, events[..|events| - 1]), events[|events| - 1])
  }

  /** The pointer on disk names a key on disk; the active id in memory names a key in memory and one on disk; the
      pointer equals the active id or names a key that memory does not know; shared ids have one secret. */
  ghost predicate Sound(s: Signer) {
    && s.diskActive in s.diskKeys
    && s.active in s.keys && s.active in s.diskKeys
    && (s.diskActive == s.active || s.diskActive !in s.keys)
    && (forall id | id in s.keys && id in s.diskKeys :: s.keys[id] == s.diskKeys[id])
  }

  lemma StepKeepsSound(s: Signer, e: Event)
    requires Sound(s) && Enabled(s, e)
    ensures Sound(Step(s, e))
  {
  }

  /** In every reachable state, whatever failed on the way, the directory can be loaded and `sign` finds its key. */
  lemma {:induction false} AlwaysSound(s: Signer, events: seq<Event>)
    requires Loaded(s) && IsRun(s, events)
    ensures Sound(After(s, events))
  {
    if events != [] {
      AlwaysSound(s, events[..|events| - 1]);
      StepKeepsSound(After(s, events[..|events| - 1]), events[|events| - 1]);
    }
  }

  /** Retirement, however far it gets, leaves the pointer and the key it names; it removes no key but the one named. */
  lemma RetireSparesActive(s: Signer, events: seq<Event>, id: string, until: RetireStage)
    requires Loaded(s) && IsRun(s, events)
    ensures
      var before := After(s, events);
      var after := Step(before, Retire(id, until));
      && after.diskActive == before.diskActive && after.diskActive in after.diskKeys
      && before.diskKeys.Keys - {id} <= after.diskKeys.Keys <= before.diskKeys.Keys
      && (id == before.active ==> after == before)
  {
    AlwaysSound(s, events);
  }
}
