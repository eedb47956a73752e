/** The template store on top of the key service: the laws that the store needs of its MAC and of
    its encryption are those that the client provides, also while keys are being generated. */
module StoreOnKeyMint {
  import opened Wrappers
  import opened Bytes
  import opened TemplateSerializer
  import opened FileNames
  import opened TemplateDisk
  import opened DirectoryScan
  import opened StoreRuns
  import opened KeyMintService
  import opened CryptoClient

  function MacOf(p: Primitives, macKey: Option<Key>, data: seq<byte>): MacResult {
    if macKey.Some? then p.hmac(macKey.value, data) else []
  }

  /** The store's view of the key service while it holds these keys and works. */
  function VaultOf(p: Primitives, keys: map<i32, Key>, macKey: Option<Key>): Vault {
    Vault((data: seq<byte>) => MacOf(p, macKey, data), (u: i32, payload: seq<byte>) => OpenPayload(p, keys, u, payload))
  }

  /** Only users that have a key have encrypted files. */
  ghost predicate EncryptedFilesHaveKeys(disk: Disk, keys: map<i32, Key>) {
    forall u: i32, f: i32 :: FilePath(u, f) in disk ==> u in keys
  }

  predicate HasNoTemplates(disk: Disk, u: i32, f: i32) {
    FilePath(u, f) !in disk && PlaintextFilePath(u, f) !in disk
  }

  /** No key that a user did not have before opens a file that is there already, for instance one made under a
      key that was lost. */
  ghost predicate NewKeysOpenNoOldFile(p: Primitives, keys: map<i32, Key>, more: map<i32, Key>, disk: Disk) {
    forall u: i32, f: i32 :: FilePath(u, f) in disk && u !in keys && u in more ==>
      OpenPayload(p, more, u, disk[FilePath(u, f)]) == []
  }

  /** Generating missing keys changes no answer, if no user without a key has encrypted files, or else if the new
      keys do not open them. */
  lemma NewKeysKeepMeaning(p: Primitives, keys: map<i32, Key>, more: map<i32, Key>, macKey: Option<Key>, disk: Disk)
    requires KeysKept(keys, more)
    requires EncryptedFilesHaveKeys(disk, keys) || NewKeysOpenNoOldFile(p, keys, more, disk)
    ensures KeepsMeaning(World(VaultOf(p, keys, macKey), disk), VaultOf(p, more, macKey))
    ensures EncryptedFilesHaveKeys(disk, keys) ==> EncryptedFilesHaveKeys(disk, more)
  {
  }

  /** The first MAC key changes no answer for a pair that has no files. */
  lemma NothingLoadsWithoutFiles(v: Vault, disk: Disk, u: i32, f: i32)
    requires HasNoTemplates(disk, u, f)
    ensures Lookup(v, disk, u, f) == None
  {
  }

  // ---------------------------------------------------------------- encrypted files have keys

  /** Whatever a save stops after, it leaves an encrypted file only for a user with a key. */
  lemma SavingKeepsKeyedFiles(v: Vault, disk: Disk, keys: map<i32, Key>, t: FaceTemplate, sealed: seq<byte>, d: Disk)
    requires EncryptedFilesHaveKeys(disk, keys) && (sealed != [] ==> t.userId in keys)
    requires IsSaveStage(v, disk, t, sealed, d)
    ensures EncryptedFilesHaveKeys(d, keys)
  {
    hide Contents;
    forall u: i32, f: i32 | FilePath(u, f) in d
      ensures u in keys
    {
      FilesAreSeparate(t.userId, t.faceId, u, f);
      FilesAreSeparate(u, f, t.userId, t.faceId);
      assert FilePath(u, f) in disk || FilePath(u, f) == FinalPath(t, sealed) by {
        if junk :| d == TempHolding(disk, FinalPath(t, sealed), junk) {
          assert FilePath(u, f) != TempPath(FinalPath(t, sealed));
        }
      }
    }
  }

  /** Deleting, scanning and removing a user only remove files. */
  lemma RemovingKeepsKeyedFiles(disk: Disk, less: Disk, keys: map<i32, Key>)
    requires EncryptedFilesHaveKeys(disk, keys) && less.Keys <= disk.Keys
    ensures EncryptedFilesHaveKeys(less, keys)
  {
  }

  /** What happens to a store whose key service holds a MAC key: operations under the keys of the moment,
      and the generation of keys for users that have none. */
  datatype KeyedOp = Operate(op: Op) | NewKeys(more: map<i32, Key>)

  datatype KeyedWorld = KeyedWorld(keys: map<i32, Key>, disk: Disk)

  function WorldOf(p: Primitives, macKey: Key, k: KeyedWorld): World {
    World(VaultOf(p, k.keys, Some(macKey)), k.disk)
  }

  /** What the client guarantees of each operation: a payload is sealed under the user's own key, and no
      existing key is replaced. A new key of a user who has encrypted files left from a lost key is
      taken not to open them. */
  ghost predicate KeyedEnabled(p: Primitives, macKey: Key, k: KeyedWorld, o: KeyedOp) {
    match o
    case NewKeys(more) =>
      KeysKept(k.keys, more) && (EncryptedFilesHaveKeys(k.disk, k.keys) || NewKeysOpenNoOldFile(p, k.keys, more, k.disk))
    case Operate(op) =>
      match op
      case Save(t, sealed) => SealedUnder(p, macKey, k.keys, t, sealed)
      case CutSave(t, sealed, left) =>
        var w := WorldOf(p, macKey, k);
        && SealedUnder(p, macKey, k.keys, t, sealed)
        && IsSaveStage(w.vault, w.disk, t, sealed, left) && RenameIsAtomic(w.vault, w.disk, t, sealed)
      case FaultyLoad(_, _, service) => FailsLike(service, WorldOf(p, macKey, k).vault)
      case FaultyScan(_, _, _) => Enabled(WorldOf(p, macKey, k), op)
      case KeysChange(_) => false
      case _ => true
  }

  predicate SealedUnder(p: Primitives, macKey: Key, keys: map<i32, Key>, t: FaceTemplate, sealed: seq<byte>) {
    sealed != [] ==>
      t.userId in keys && OpenPayload(p, keys, t.userId, sealed) == Signed(t) + p.hmac(macKey, Signed(t))
  }

  /** The store's operation. */
  function OpOf(p: Primitives, macKey: Key, o: KeyedOp): Op {
    match o
    case Operate(op) => op
    case NewKeys(more) => KeysChange(VaultOf(p, more, Some(macKey)))
  }

  function OpsOf(p: Primitives, macKey: Key, os: seq<KeyedOp>): seq<Op> {
    seq(|os|, i requires 0 <= i < |os| => OpOf(p, macKey, os[i]))
  }

  function KeyedExec(p: Primitives, macKey: Key, k: KeyedWorld, o: KeyedOp): KeyedWorld {
    match o
    case Operate(op) => k.(disk := Exec(WorldOf(p, macKey, k), op).disk)
    case NewKeys(more) => k.(keys := more)
  }

  function KeyedAfter(p: Primitives, macKey: Key, k: KeyedWorld, os: seq<KeyedOp>): KeyedWorld {
    if os == [] then k else KeyedExec(p, macKey, KeyedAfter(p, macKey, k, os[..|os| - 1]), os[|os| - 1])
  }

  ghost predicate IsKeyedRun(p: Primitives, macKey: Key, k: KeyedWorld, os: seq<KeyedOp>) {
    os != [] ==>
      && IsKeyedRun(p, macKey, k, os[..|os| - 1])
      && KeyedEnabled(p, macKey, KeyedAfter(p, macKey, k, os[..|os| - 1]), os[|os| - 1])
  }

  lemma SealedUnderIsSealOf(p: Primitives, macKey: Key, keys: map<i32, Key>, t: FaceTemplate, sealed: seq<byte>)
    requires SealedUnder(p, macKey, keys, t, sealed)
    ensures var v := VaultOf(p, keys, Some(macKey));
            Serialized(v.sign, t) == Signed(t) + p.hmac(macKey, Signed(t)) && Serialized(v.sign, t) != []
            && IsSealOf(v, t, sealed)
  {
  }

  lemma KeyedStep(p: Primitives, macKey: Key, k: KeyedWorld, o: KeyedOp)
    requires KeyedEnabled(p, macKey, k, o)
    ensures var n := KeyedExec(p, macKey, k, o);
            && (EncryptedFilesHaveKeys(k.disk, k.keys) ==> EncryptedFilesHaveKeys(n.disk, n.keys))
            && Enabled(WorldOf(p, macKey, k), OpOf(p, macKey, o))
            && Exec(WorldOf(p, macKey, k), OpOf(p, macKey, o)) == WorldOf(p, macKey, n)
  {
    hide EncryptedFilesHaveKeys, VaultOf, Saved, Deleted, Cleaned, UserRemoved, Left, Signed, SealedUnder, IsSealOf, FailsLike, IsListing;
    var w, n := WorldOf(p, macKey, k), KeyedExec(p, macKey, k, o);
    match o
    case NewKeys(more) => NewKeysKeepMeaning(p, k.keys, more, Some(macKey), k.disk);
    case Operate(op) =>
      match op
      case Save(t, sealed) =>
        SealedUnderIsSealOf(p, macKey, k.keys, t, sealed);
        SavedIsAStage(w.vault, k.disk, t, sealed);
        SealedUsersHaveKeys(p, macKey, k.keys, t, sealed);
        if EncryptedFilesHaveKeys(k.disk, k.keys) {
          SavingKeepsKeyedFiles(w.vault, k.disk, k.keys, t, sealed, n.disk);
        }
      case CutSave(t, sealed, left) =>
        SealedUnderIsSealOf(p, macKey, k.keys, t, sealed);
        SealedUsersHaveKeys(p, macKey, k.keys, t, sealed);
        if EncryptedFilesHaveKeys(k.disk, k.keys) {
          SavingKeepsKeyedFiles(w.vault, k.disk, k.keys, t, sealed, left);
        }
      case _ =>
        OthersOnlyRemove(w, op);
        if EncryptedFilesHaveKeys(k.disk, k.keys) {
          RemovingKeepsKeyedFiles(k.disk, n.disk, k.keys);
        }
  }

  lemma SealedUsersHaveKeys(p: Primitives, macKey: Key, keys: map<i32, Key>, t: FaceTemplate, sealed: seq<byte>)
    requires SealedUnder(p, macKey, keys, t, sealed)
    ensures sealed != [] ==> t.userId in keys
  {
  }

  lemma SavedIsAStage(v: Vault, disk: Disk, t: FaceTemplate, sealed: seq<byte>)
    ensures IsSaveStage(v, disk, t, sealed, Saved(v, disk, t, sealed))
  {
  }

  lemma OthersOnlyRemove(w: World, op: Op)
    requires !op.Save? && !op.CutSave?
    ensures Exec(w, op).disk.Keys <= w.disk.Keys
  {
  }

  /** Any run of saves, cut saves, loads, deletes, scans, removals and key generations, from any disk, is one of
      the abstract store. If only users with a key have encrypted files at the start, that stays so, and
      then key generation needs no assumption about old files. */
  lemma EveryKeyedRunRefines(p: Primitives, macKey: Key, k: KeyedWorld, os: seq<KeyedOp>)
    requires IsKeyedRun(p, macKey, k, os)
    ensures var w, ops, n := WorldOf(p, macKey, k), OpsOf(p, macKey, os), KeyedAfter(p, macKey, k, os);
            && (EncryptedFilesHaveKeys(k.disk, k.keys) ==> EncryptedFilesHaveKeys(n.disk, n.keys))
            && IsRun(w, ops) && WorldAfter(w, ops) == WorldOf(p, macKey, n)
            && IsAbstractRun(w, Meaning(w), ops, Replies(w, ops), Meaning(WorldOf(p, macKey, n)))
  {
    KeyedRunIsRun(p, macKey, k, os);
    EveryRunRefines(WorldOf(p, macKey, k), OpsOf(p, macKey, os));
  }

  lemma {:induction false} KeyedRunIsRun(p: Primitives, macKey: Key, k: KeyedWorld, os: seq<KeyedOp>)
    requires IsKeyedRun(p, macKey, k, os)
    ensures var w, ops, n := WorldOf(p, macKey, k), OpsOf(p, macKey, os), KeyedAfter(p, macKey, k, os);
            && (EncryptedFilesHaveKeys(k.disk, k.keys) ==> EncryptedFilesHaveKeys(n.disk, n.keys))
            && IsRun(w, ops) && WorldAfter(w, ops) == WorldOf(p, macKey, n)
    decreases |os|
  {
    hide EncryptedFilesHaveKeys, WorldOf, Exec, Enabled, KeyedEnabled, KeyedExec, OpOf;
    if os == [] {
    } else {
      var front, last := os[..|os| - 1], os[|os| - 1];
      KeyedRunIsRun(p, macKey, k, front);
      KeyedStep(p, macKey, KeyedAfter(p, macKey, k, front), last);
      assert OpsOf(p, macKey, os)[..|os| - 1] == OpsOf(p, macKey, front);
    }
  }

  // ---------------------------------------------------------------- one save through the client

  /** Saving under keys that may have grown meanwhile, and under the MAC key it was signed with. */
  lemma SavingUnderNewKeys(p: Primitives, more: map<i32, Key>, macKey: Key, disk: Disk, t: FaceTemplate, sealed: seq<byte>)
    requires SealedUnder(p, macKey, more, t, sealed)
    ensures var w := VaultOf(p, more, Some(macKey));
            var after := Saved(w, disk, t, sealed);
            && (EncryptedFilesHaveKeys(disk, more) ==> EncryptedFilesHaveKeys(after, more))
            && Lookup(w, after, t.userId, t.faceId) == Answer(w, t)
            && (forall u: i32, f: i32 :: u != t.userId || f != t.faceId ==>
                  Lookup(w, after, u, f) == Lookup(w, disk, u, f))
            && (FilePath(t.userId, t.faceId) in after <==> sealed != [])
  {
    hide Lookup, Saved, Serialized, Signed, VaultOf, Answer, EncryptedFilesHaveKeys, SealedUnder;
    var w := VaultOf(p, more, Some(macKey));
    SealedUnderIsSealOf(p, macKey, more, t, sealed);
    SealedUsersHaveKeys(p, macKey, more, t, sealed);
    SavedIsAStage(w, disk, t, sealed);
    if EncryptedFilesHaveKeys(disk, more) {
      SavingKeepsKeyedFiles(w, disk, more, t, sealed, Saved(w, disk, t, sealed));
    }
    LookupAfterSave(w, disk, t, sealed);
    forall u: i32, f: i32 | u != t.userId || f != t.faceId
      ensures Lookup(w, Saved(w, disk, t, sealed), u, f) == Lookup(w, disk, u, f)
    {
      SavingLeavesOthersAlone(w, disk, t, sealed, u, f);
    }
  }

  /** A pair whose answer cannot depend on keys that have been generated meanwhile: its MACs can be verified under
      the key there was, or it has no files; and its user had a storage key, or it has no encrypted file, or
      the new key does not open that. */
  predicate IsSettled(p: Primitives, keys: map<i32, Key>, more: map<i32, Key>, had: Option<Key>, disk: Disk, u: i32, f: i32) {
    && (had.Some? || HasNoTemplates(disk, u, f))
    && (FilePath(u, f) in disk && u !in keys && u in more ==> OpenPayload(p, more, u, disk[FilePath(u, f)]) == [])
  }

  /** The keys that are generated change no answer of such a pair. */
  lemma NewKeysChangeNothing(p: Primitives, keys: map<i32, Key>, more: map<i32, Key>, had: Option<Key>, has: Option<Key>, disk: Disk,
                             u: i32, f: i32)
    requires KeysKept(keys, more) && (had.Some? ==> has == had)
    requires IsSettled(p, keys, more, had, disk, u, f)
    ensures Lookup(VaultOf(p, more, has), disk, u, f) == Lookup(VaultOf(p, keys, had), disk, u, f)
  {
    var v, w := VaultOf(p, keys, had), VaultOf(p, more, has);
    if had.Some? {
      hide OpenPayload, Lookup, FilePath;
      if FilePath(u, f) in disk {
        SamePayload(p, keys, more, u, disk[FilePath(u, f)]);
      }
      AnswerDependsOnPayload(v, w, disk, u, f);
    } else {
      NothingLoadsWithoutFiles(v, disk, u, f);
      NothingLoadsWithoutFiles(w, disk, u, f);
    }
  }

  lemma SamePayload(p: Primitives, keys: map<i32, Key>, more: map<i32, Key>, u: i32, payload: seq<byte>)
    requires KeysKept(keys, more)
    ensures u in keys || u !in more ==> OpenPayload(p, more, u, payload) == OpenPayload(p, keys, u, payload)
    ensures u !in keys ==> OpenPayload(p, keys, u, payload) == []
  {
  }

  /** A save that signs and encrypts through the client, on any disk and with any keys: with or without a MAC key,
      with or without a key for the user. What it saved is what loads under the keys as they are afterwards,
      and every other answer is that of the old disk, whether the client encrypted, generated keys first, or
      failed and left the plaintext fallback. */
  method SaveThroughClient(client: CryptoClient, disk: Disk, t: FaceTemplate)
    returns (after: Disk, ok: bool)
    requires client.secLevel != null && client.Valid()
    modifies client, client.secLevel
    ensures old(client.secLevel.macKey).Some? ==> client.secLevel.macKey == old(client.secLevel.macKey)
    ensures client.Valid()
    ensures EncryptedFilesHaveKeys(disk, old(client.secLevel.storageKeys)) ==>
              EncryptedFilesHaveKeys(after, client.secLevel.storageKeys)
    ensures var p, keys, had := client.secLevel.prims, old(client.secLevel.storageKeys), old(client.secLevel.macKey);
            var more := client.secLevel.storageKeys;
            var v, w := VaultOf(p, keys, had), VaultOf(p, more, client.secLevel.macKey);
            && (ok ==> Lookup(w, after, t.userId, t.faceId) == Answer(w, t))
            && (forall u: i32, f: i32 :: !ok || u != t.userId || f != t.faceId ==>
                  Lookup(w, after, u, f) == Lookup(w, disk, u, f))
            && (forall u: i32, f: i32 :: IsSettled(p, keys, more, had, disk, u, f) ==>
                  Lookup(w, disk, u, f) == Lookup(v, disk, u, f))
    ensures !client.secLevel.faulty ==> ok && FilePath(t.userId, t.faceId) in after
  {
    hide Lookup, Saved, Signed, Stored, OpenPayload, Answer, VaultOf, EncryptedFilesHaveKeys, IsSettled;
    ghost var p, keys, had := client.secLevel.prims, client.secLevel.storageKeys, client.secLevel.macKey;
    after, ok := disk, false;
    var mac := client.SignWithHmacKey(Signed(t));
    if mac != [] {
      var image := Signed(t) + mac;
      var sealed := client.Encrypt(t.userId, image);
      ghost var more, macKey := client.secLevel.storageKeys, client.secLevel.macKey.value;
      assert sealed != [] ==> Issued(t.userId, image, sealed) in client.issued;
      assert SealedUnder(p, macKey, more, t, sealed);
      MoreKeysKeepKeyedFiles(keys, more, disk);
      SavingUnderNewKeys(p, more, macKey, disk, t, sealed);
      SealedUnderIsSealOf(p, macKey, more, t, sealed);
      after, ok := SavedBytes(disk, t, image, sealed), true;
      SavedBytesIsSaved(VaultOf(p, more, Some(macKey)), disk, t, sealed);
    }
    forall u: i32, f: i32 | IsSettled(p, keys, client.secLevel.storageKeys, had, disk, u, f)
      ensures Lookup(VaultOf(p, client.secLevel.storageKeys, client.secLevel.macKey), disk, u, f)
           == Lookup(VaultOf(p, keys, had), disk, u, f)
    {
      NewKeysChangeNothing(p, keys, client.secLevel.storageKeys, had, client.secLevel.macKey, disk, u, f);
    }
  }

  lemma MoreKeysKeepKeyedFiles(keys: map<i32, Key>, more: map<i32, Key>, disk: Disk)
    requires KeysKept(keys, more)
    ensures EncryptedFilesHaveKeys(disk, keys) ==> EncryptedFilesHaveKeys(disk, more)
  {
  }

  function SavedBytes(disk: Disk, t: FaceTemplate, image: seq<byte>, sealed: seq<byte>): Disk {
    TempUnlinked(disk, t, sealed)[FinalPath(t, sealed) := if sealed == [] then image else sealed] - {StalePath(t, sealed)}
  }

  lemma SavedBytesIsSaved(v: Vault, disk: Disk, t: FaceTemplate, sealed: seq<byte>)
    ensures SavedBytes(disk, t, Serialized(v.sign, t), sealed) == Saved(v, disk, t, sealed)
  {
  }
}
