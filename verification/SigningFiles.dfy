/** The same key set at the level of files: `write_key_file`, `write_active_pointer`, `load_set`, `rotate` and `retire`
    of `crates/iac-controlplane/src/signing.rs`, every disk operation of which may fail. */
module SigningFiles {
  import opened Common
  import opened Strings
  import opened Signing

  const KEY_BYTES: nat := 32

  /** The files of the directory: keys, the pointer, the temporary file beside each while it is written, and others. */
  datatype Name = KeyFile(id: string) | ActivePointer | Temporary(of: Name) | Other(name: string)

  /** Whatever else lies there does not end in `.bin`: such a file would be a key. */
  type FileName = n: Name | n.Other? ==> !EndsInBin(n.name) witness ActivePointer

  /** The name on disk. */
  function NameText(n: Name): string {
    match n
    case KeyFile(id) => id + ".bin"
    case ActivePointer => "active"
    case Temporary(of) => "." + NameText(of) + ".tmp"
    case Other(name) => name
  }

  predicate EndsInBin(text: string) {
    |text| >= 4 && text[|text| - 4..] == ".bin"
  }

  /** The name without its last four characters. */
  function Stem(text: string): string
    requires EndsInBin(text)
  {
    text[..|text| - 4]
  }

  /** The suffix `.bin` marks exactly the key files, and stripping it gives the id back; the pointer and temporary files
      are never taken for keys. */
  lemma KeyFilesByText(n: FileName)
    ensures EndsInBin(NameText(n)) <==> n.KeyFile?
    ensures n.KeyFile? ==> Stem(NameText(n)) == n.id
  {
    var text := NameText(n);
    match n
    case KeyFile(id) =>
      assert text[|text| - 4..] == ".bin" && text[..|text| - 4] == id;
    case ActivePointer =>
      assert text[|text| - 4..][3] == 'e';
    case Temporary(of) =>
      assert text[|text| - 1] == 'p';
      assert text[|text| - 4..][3] == text[|text| - 1];
    case Other(_) =>
  }

  type Files = map<FileName, string>

  /** The keys a directory holds, by id. */
  ghost function DiskKeys(files: Files): map<string, Secret> {
    map id | id in KeyIds(files) :: files[KeyFile(id)]
  }

  ghost function KeyIds(files: Files): (ids: set<string>)
    ensures forall id :: id in ids <==> KeyFile(id) in files
  {
    set name | name in files && name.KeyFile? :: name.id
  }

  /** `load_set` accepts the directory. */
  ghost predicate Loadable(files: Files) {
    && ActivePointer in files
    && Trim(files[ActivePointer]) != ""
    && AllFullLength(files)
    && Trim(files[ActivePointer]) in DiskKeys(files)
  }

  ghost predicate AllFullLength(files: Files) {
    forall id | id in DiskKeys(files) :: |DiskKeys(files)[id]| == KEY_BYTES
  }

  // ---- disk operations ----

  /** A directory whose operations work until `budget` of them have been used, and then fail. */
  class Directory {
    var files: Files
    var budget: nat

    constructor (files: Files, budget: nat)
      ensures this.files == files && this.budget == budget
    {
      this.files, this.budget := files, budget;
    }

    method Try() returns (ok: bool)
      modifies `budget
      ensures ok <==> old(budget) > 0
      ensures budget == if ok then old(budget) - 1 else 0
    {
      ok := budget > 0;
      if ok {
        budget := budget - 1;
      }
    }

    /** A failed write may leave a part of the content behind. */
    method Write(name: FileName, content: string) returns (ok: bool, ghost written: string)
      modifies this
      ensures files == old(files)[name := written]
      ensures ok ==> written == content
      ensures ok <==> old(budget) > 0
      ensures budget == if ok then old(budget) - 1 else 0
    {
      ok := Try();
      var stored := if ok then content else content[..|content| / 2];
      written := stored;
      files := files[name := stored];
    }

    method Chmod(name: FileName) returns (ok: bool)
      modifies `budget
      ensures ok <==> old(budget) > 0
      ensures budget == if ok then old(budget) - 1 else 0
    {
      ok := Try();
    }

    method Rename(from: FileName, to: FileName) returns (ok: bool)
      requires from in files && from != to
      modifies this
      ensures ok ==> files == (old(files) - {from})[to := old(files)[from]]
      ensures !ok ==> files == old(files)
      ensures ok <==> old(budget) > 0
      ensures budget == if ok then old(budget) - 1 else 0
    {
      ok := Try();
      if ok {
        files := (files - {from})[to := files[from]];
      }
    }

    method Remove(name: FileName) returns (ok: bool)
      modifies this
      ensures ok ==> files == old(files) - {name}
      ensures !ok ==> files == old(files)
      ensures ok <==> old(budget) > 0
      ensures budget == if ok then old(budget) - 1 else 0
    {
      ok := Try();
      if ok {
        files := files - {name};
      }
    }

    method Read(name: FileName) returns (content: Option<string>)
      modifies `budget
      ensures content.Some? ==> name in files && content.value == files[name]
      ensures old(budget) > 0 && name in files ==> content.Some? && budget == old(budget) - 1
      ensures budget <= old(budget)
    {
      var ok := Try();
      if ok && name in files {
        return Some(files[name]);
      }
      return None;
    }

    method List() returns (names: Option<set<FileName>>)
      modifies `budget
      ensures names.Some? ==> names.value == files.Keys
      ensures old(budget) > 0 ==> names.Some? && budget == old(budget) - 1
      ensures budget <= old(budget)
    {
      var ok := Try();
      if ok {
        return Some(files.Keys);
      }
      return None;
    }
  }

  /** Write the secret beside its place and move it there: afterwards the key is stored, or no key has changed. */
  method WriteKeyFile(dir: Directory, id: string, secret: Secret) returns (ok: bool)
    modifies dir
    ensures DiskKeys(dir.files) == if ok then DiskKeys(old(dir.files))[id := secret] else DiskKeys(old(dir.files))
    ensures ActivePointer in old(dir.files) <==> ActivePointer in dir.files
    ensures ActivePointer in old(dir.files) ==> dir.files[ActivePointer] == old(dir.files)[ActivePointer]
    ensures old(dir.budget) >= 3 ==> ok && dir.budget == old(dir.budget) - 3 && |dir.files| <= |old(dir.files)| + 1
  {
    ghost var before := dir.files;
    var tmp := Temporary(KeyFile(id));
    ghost var written;
    ok, written := dir.Write(tmp, secret);
    if !ok {
      return;
    }
    ok := dir.Chmod(tmp);
    if !ok {
      return;
    }
    FileMoved(before, tmp, KeyFile(id), secret);
    ok := dir.Rename(tmp, KeyFile(id));
  }

  /** Writing a file beside its place and moving it there adds at most one file. */
  lemma FileMoved(files: Files, tmp: FileName, to: FileName, content: string)
    requires tmp != to
    ensures |(files[tmp := content] - {tmp})[to := content]| <= |files| + if to in files then 0 else 1
  {
    var after := (files[tmp := content] - {tmp})[to := content];
    assert after.Keys == files.Keys - {tmp} + {to};
    if to in files {
      assert files.Keys - {tmp} + {to} == files.Keys - {tmp};
    }
    assert |files.Keys - {tmp}| <= |files.Keys|;
  }

  /** Move a new pointer into place: afterwards it names `id`, or is what it was. */
  method WriteActivePointer(dir: Directory, id: string) returns (ok: bool)
    modifies dir
    ensures DiskKeys(dir.files) == DiskKeys(old(dir.files))
    ensures ok ==> ActivePointer in dir.files && dir.files[ActivePointer] == id
    ensures !ok && ActivePointer in old(dir.files) ==>
              ActivePointer in dir.files && dir.files[ActivePointer] == old(dir.files)[ActivePointer]
    ensures old(dir.budget) >= 2 && ActivePointer in old(dir.files) ==>
              ok && dir.budget == old(dir.budget) - 2 && |dir.files| <= |old(dir.files)|
  {
    ghost var before := dir.files;
    var tmp := Temporary(ActivePointer);
    ghost var written;
    ok, written := dir.Write(tmp, id);
    if !ok {
      return;
    }
    FileMoved(before, tmp, ActivePointer, id);
    ok := dir.Rename(tmp, ActivePointer);
  }

  /** Delete the file of a key, if there is one: afterwards it is gone, or no key has changed. */
  method RemoveKeyFile(dir: Directory, id: string) returns (ok: bool)
    modifies dir
    ensures DiskKeys(dir.files) == if ok then DiskKeys(old(dir.files)) - {id} else DiskKeys(old(dir.files))
    ensures ActivePointer in old(dir.files) ==>
              ActivePointer in dir.files && dir.files[ActivePointer] == old(dir.files)[ActivePointer]
    ensures !ok ==> dir.files == old(dir.files)
    ensures old(dir.budget) >= 1 ==> ok && dir.budget >= old(dir.budget) - 1 && |dir.files| <= |old(dir.files)|
  {
    var path := KeyFile(id);
    assert (dir.files - {path}).Keys == dir.files.Keys - {path};
    ok := true;
    if path in dir.files {
      ok := dir.Remove(path);
    } else {
      assert dir.files - {path} == dir.files;
    }
  }

  // ---- loading ----

  datatype SignerState = SignerState(keys: map<string, Secret>, activeId: string)

  /** The keys among the given file names. */
  ghost function KeysAmong(files: Files, names: set<FileName>): map<string, Secret>
    requires names <= files.Keys
  {
    map id | id in KeyIds(files) && KeyFile(id) in names :: files[KeyFile(id)]
  }

  lemma KeysAmongStep(files: Files, done: set<FileName>, name: FileName)
    requires done <= files.Keys && name in files && name !in done
    ensures KeysAmong(files, done + {name}) ==
            if name.KeyFile? then KeysAmong(files, done)[name.id := files[name]] else KeysAmong(files, done)
    ensures name.KeyFile? ==> name.id in DiskKeys(files) && DiskKeys(files)[name.id] == files[name]
  {
  }

  /** Some of the names have been read: the keys among them, all of full length. */
  ghost predicate ReadSoFar(files: Files, left: set<FileName>, keys: map<string, Secret>) {
    left <= files.Keys && keys == KeysAmong(files, files.Keys - left)
      && forall id | id in keys :: |keys[id]| == KEY_BYTES
  }

  lemma ReadStep(files: Files, left: set<FileName>, keys: map<string, Secret>, name: FileName)
    requires ReadSoFar(files, left, keys) && name in left
    ensures name.KeyFile? && |files[name]| == KEY_BYTES ==>
        ReadSoFar(files, left - {name}, keys[name.id := files[name]])
    ensures !name.KeyFile? ==> ReadSoFar(files, left - {name}, keys)
    ensures AllFullLength(files) && name.KeyFile? ==> |files[name]| == KEY_BYTES
  {
    KeysAmongStep(files, files.Keys - left, name);
    assert files.Keys - (left - {name}) == files.Keys - left + {name};
  }

  /** Read every key file among `names`; fails if one cannot be read or is not 32 bytes long. */
  method ReadKeys(dir: Directory, names: set<FileName>) returns (r: Option<map<string, Secret>>)
    requires names == dir.files.Keys
    modifies dir`budget
    ensures r.Some? ==> r.value == DiskKeys(dir.files) && AllFullLength(dir.files)
    ensures AllFullLength(dir.files) && old(dir.budget) >= |names| ==> r.Some?
  {
    var keys: map<string, Secret> := map[];
    var left := names;
    while left != {}
      invariant ReadSoFar(dir.files, left, keys)
      invariant old(dir.budget) >= |names| ==> dir.budget >= |left|
      decreases |left|
    {
      var name :| name in left;
      ReadStep(dir.files, left, keys, name);
      left := left - {name};
      KeyFilesByText(name);
      if EndsInBin(NameText(name)) {
        var bytes := dir.Read(name);
        if bytes.None? || |bytes.value| != KEY_BYTES {
          return None;
        }
        keys := keys[Stem(NameText(name)) := bytes.value];
      }
    }
    assert dir.files.Keys - left == dir.files.Keys;
    assert keys == DiskKeys(dir.files);
    return Some(keys);
  }

  /** Read the pointer and every key file. Succeeds on a loadable directory unless an operation fails. */
  method LoadSet(dir: Directory) returns (r: Option<SignerState>)
    modifies dir`budget
    ensures r.Some? ==>
              && Loadable(dir.files)
              && r.value == SignerState(DiskKeys(dir.files), Trim(dir.files[ActivePointer]))
    ensures r.Some? ==>
              && r.value.activeId != "" && r.value.activeId in r.value.keys
              && (forall id | id in r.value.keys :: |r.value.keys[id]| == 32)
              && (forall id :: id in r.value.keys <==> KeyFile(id) in dir.files)
              && (forall id | id in r.value.keys :: r.value.keys[id] == dir.files[KeyFile(id)])
    ensures Loadable(dir.files) && old(dir.budget) >= |dir.files| + 2 ==> r.Some?
  {
    var pointer := dir.Read(ActivePointer);
    if pointer.None? || Trim(pointer.value) == "" {
      return None;
    }
    var activeId := Trim(pointer.value);
    var listed := dir.List();
    if listed.None? {
      return None;
    }
    var keys := ReadKeys(dir, listed.value);
    if keys.None? || activeId !in keys.value {
      return None;
    }
    return Some(SignerState(keys.value, activeId));
  }

  // ---- the signer ----

  /** What the directory and the state in memory amount to. */
  ghost function View(files: Files, state: SignerState): Signer
    requires ActivePointer in files
  {
    Signer(DiskKeys(files), Trim(files[ActivePointer]), state.keys, state.activeId)
  }

  class ServerSigner {
    const dir: Directory
    var state: SignerState

    ghost predicate Valid()
      reads this, dir
    {
      Loadable(dir.files) && Sound(View(dir.files, state))
    }

    /** Start from a loaded set. */
    constructor (dir: Directory, state: SignerState)
      requires Loadable(dir.files) && state == SignerState(DiskKeys(dir.files), Trim(dir.files[ActivePointer]))
      ensures this.dir == dir && this.state == state && Valid()
      ensures Loaded(View(dir.files, this.state))
    {
      this.dir, this.state := dir, state;
    }

    /** The id and secret every signature is made with. */
    method ActiveKey() returns (id: string, secret: Secret)
      requires Valid()
      ensures id == state.activeId && id in state.keys && secret == state.keys[id]
      ensures id in DiskKeys(dir.files) && DiskKeys(dir.files)[id] == secret
    {
      id := state.activeId;
      secret := state.keys[id];
    }

    /** Generate a key under a fresh id, point at it, reload. `upTo` says which disk operations took effect. */
    method RotateKey(newId: string, secret: Secret) returns (ok: bool, ghost upTo: RotateStage)
      requires Valid()
      requires |secret| == KEY_BYTES && newId != "" && Trim(newId) == newId
      requires newId !in DiskKeys(dir.files) && newId !in state.keys
      modifies this, dir
      ensures Valid()
      ensures View(dir.files, state) == RotateTo(old(View(dir.files, state)), newId, secret, upTo)
      ensures ok <==> upTo == RotationDone
      ensures old(dir.budget) >= |old(dir.files)| + 8 ==> ok
      ensures ok ==> state.activeId == newId && state.keys == old(DiskKeys(dir.files))[newId := secret]
      ensures !ok ==> state == old(state)
    {
      ghost var before := View(dir.files, state);
      StepKeepsSound(before, Rotate(newId, secret, KeyWritten));
      StepKeepsSound(before, Rotate(newId, secret, PointerWritten));
      StepKeepsSound(before, Rotate(newId, secret, RotationDone));
      ok := WriteKeyFile(dir, newId, secret);
      upTo := NothingWritten;
      if !ok {
        return;
      }
      ok := WriteActivePointer(dir, newId);
      upTo := KeyWritten;
      if !ok {
        return;
      }
      upTo := PointerWritten;
      var loaded := LoadSet(dir);
      if loaded.None? {
        return false, upTo;
      }
      state := loaded.value;
      upTo := RotationDone;
    }

    /** Remove a key other than the active one and reload. `Some(false)` means it was not in the set. */
    method RetireKey(keyId: string) returns (r: Option<bool>, ghost until: RetireStage)
      requires Valid()
      modifies this, dir
      ensures Valid()
      ensures View(dir.files, state) == RetireTo(old(View(dir.files, state)), keyId, until)
      ensures keyId == old(state.activeId) ==> r.None? && dir.files == old(dir.files) && state == old(state)
      ensures keyId != old(state.activeId) && keyId !in old(state.keys) ==>
          r == Some(false) && dir.files == old(dir.files)
      ensures r == Some(true) ==> until == RetirementDone && keyId !in state.keys && keyId !in DiskKeys(dir.files)
      ensures r == None ==> state == old(state)
      ensures old(dir.budget) >= |old(dir.files)| + 3 && keyId != old(state.activeId) && keyId in old(state.keys) ==>
          r == Some(true)
    {
      until := NothingRemoved;
      if state.activeId == keyId {
        return None, until;
      }
      if keyId !in state.keys {
        return Some(false), until;
      }
      ghost var before := View(dir.files, state);
      StepKeepsSound(before, Retire(keyId, KeyRemoved));
      StepKeepsSound(before, Retire(keyId, RetirementDone));
      var removed := RemoveKeyFile(dir, keyId);
      if !removed {
        return None, until;
      }
      until := KeyRemoved;
      var loaded := LoadSet(dir);
      if loaded.None? {
        return None, until;
      }
      state := loaded.value;
      until := RetirementDone;
      return Some(true), until;
    }
  }

  /** After a crash at any point, the next start loads the directory if the disk works. */
  method StartAgain(dir: Directory) returns (r: Option<SignerState>)
    requires Loadable(dir.files)
    modifies dir`budget
    ensures old(dir.budget) >= |dir.files| + 2 ==> r.Some?
    ensures r.Some? ==> Loaded(View(dir.files, r.value))
  {
    r := LoadSet(dir);
  }
}
