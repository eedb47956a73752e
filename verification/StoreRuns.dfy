/** Any run of storage operations, crashes included, on the two-file layout behaves like the same
    run on one map from (user, face) to template. */
module StoreRuns {
  import opened Wrappers
  import opened Bytes
  import opened TemplateSerializer
  import opened FileNames
  import opened TemplateDisk
  import opened DirectoryScan

  datatype World = World(vault: Vault, disk: Disk)

  /** The abstract store. */
  type Store = map<(i32, i32), FaceTemplate>

  datatype Op =
    | Save(t: FaceTemplate, sealed: seq<byte>)
    /** A save that failed or was cut short and left the disk `left`. */
    | CutSave(t: FaceTemplate, sealed: seq<byte>, left: Disk)
    | Load(u: i32, f: i32)
    | Delete(u: i32, f: i32)
    | Scan(u: i32)
    | RemoveUser(u: i32)
    /** A load while the key service fails some calls, and a scan that meets `entries` in this order while it
        fails some calls at each. */
    | FaultyLoad(u: i32, f: i32, service: Vault)
    | FaultyScan(u: i32, entries: seq<string>, services: Services)
    /** The key service generates further keys. */
    | KeysChange(next: Vault)

  datatype Reply = Done | Loaded(t: Option<FaceTemplate>) | Found(ts: map<i32, FaceTemplate>)

  /** What the encrypted files now on disk decrypt to, and every MAC, stay as they are. */
  ghost predicate KeepsMeaning(w: World, next: Vault) {
    && (forall data :: next.sign(data) == w.vault.sign(data))
    && (forall u: i32, f: i32 :: FilePath(u, f) in w.disk ==>
          next.open(u, w.disk[FilePath(u, f)]) == w.vault.open(u, w.disk[FilePath(u, f)]))
  }

  ghost predicate Enabled(w: World, op: Op) {
    match op
    case Save(t, sealed) => Serialized(w.vault.sign, t) != [] && IsSealOf(w.vault, t, sealed)
    case CutSave(t, sealed, left) =>
      && Serialized(w.vault.sign, t) != [] && IsSealOf(w.vault, t, sealed)
      && IsSaveStage(w.vault, w.disk, t, sealed, left) && RenameIsAtomic(w.vault, w.disk, t, sealed)
    case FaultyLoad(_, _, service) => FailsLike(service, w.vault)
    case FaultyScan(u, entries, services) =>
      IsListing(w.disk, u, entries) && forall i :: FailsLike(services(i), w.vault)
    case KeysChange(next) => KeepsMeaning(w, next)
    case _ => true
  }

  function Exec(w: World, op: Op): World {
    match op
    case Save(t, sealed) => w.(disk := Saved(w.vault, w.disk, t, sealed))
    case CutSave(_, _, left) => w.(disk := left)
    case Load(_, _) => w
    case Delete(u, f) => w.(disk := Deleted(w.disk, u, f))
    case Scan(u) => w.(disk := Cleaned(w.vault, w.disk, u))
    case RemoveUser(u) => w.(disk := UserRemoved(w.disk, u))
    case FaultyLoad(_, _, _) => w
    case FaultyScan(u, entries, services) => w.(disk := Left(services, w.disk, u, entries))
    case KeysChange(next) => w.(vault := next)
  }

  function ReplyOf(w: World, op: Op): Reply {
    match op
    case Load(u, f) => Loaded(Lookup(w.vault, w.disk, u, f))
    case Scan(u) => Reply.Found(ScanResult(w.vault, w.disk, u))
    case FaultyLoad(u, f, service) => Loaded(Lookup(service, w.disk, u, f))
    case FaultyScan(u, entries, services) => Reply.Found(DirectoryScan.Found(services, w.disk, u, entries))
    case _ => Done
  }

  // ---------------------------------------------------------------- the abstract store

  function Get(a: Store, u: i32, f: i32): Option<FaceTemplate> {
    if (u, f) in a then Some(a[(u, f)]) else None
  }

  function Set(a: Store, u: i32, f: i32, t: Option<FaceTemplate>): Store {
    if t.Some? then a[(u, f) := t.value] else a - {(u, f)}
  }

  function FacesOf(a: Store, u: i32): map<i32, FaceTemplate> {
    map f | f in (set k | k in a && k.0 == u :: k.1) && f != -1 && (u, f) in a :: a[(u, f)]
  }

  /** One operation on the abstract store. With a failing key service a load may miss; and a scan loses exactly
      the faces it does not return, and leaves each of the others as it was or as returned. */
  ghost predicate AbstractStep(sign: Signer, a: Store, op: Op, reply: Reply, next: Store) {
    match op
    case Save(t, _) =>
      reply == Done && next == Set(a, t.userId, t.faceId, if t.version == CURRENT_VERSION then Some(Stored(sign, t)) else None)
    case CutSave(t, _, _) =>
      && reply == Done
      && (next == a
          || next == Set(a, t.userId, t.faceId, if t.version == CURRENT_VERSION then Some(Stored(sign, t)) else None))
    case Load(u, f) => reply == Loaded(Get(a, u, f)) && next == a
    case Delete(u, f) => reply == Done && next == Set(a, u, f, None)
    case Scan(u) => reply == Reply.Found(FacesOf(a, u)) && next == a
    case RemoveUser(u) => reply == Done && next == map k | k in a && k.0 != u :: a[k]
    case FaultyLoad(u, f, _) => reply.Loaded? && (reply.t.Some? ==> (u, f) in a) && next == a
    case FaultyScan(u, _, _) =>
      && reply.Found? && reply.ts.Keys <= FacesOf(a, u).Keys
      && (forall k :: k in next <==> k in a && (k.0 != u || k.1 == -1 || k.1 in reply.ts))
      && (forall k :: k in next ==>
            next[k] == a[k] || (k.0 == u && k.1 != -1 && k.1 in reply.ts && next[k] == reply.ts[k.1]))
    case KeysChange(_) => reply == Done && next == a
  }

  /** The disk answers every load like the abstract store. */
  ghost predicate Represents(w: World, a: Store) {
    forall u: i32, f: i32 :: Lookup(w.vault, w.disk, u, f) == Get(a, u, f)
  }

  // ---------------------------------------------------------------- refinement, one step

  lemma ParseIgnoresSignerIdentity(s: Signer, t: Signer, data: seq<byte>)
    requires forall d :: s(d) == t(d)
    ensures Parse(s, data) == Parse(t, data)
  {
  }

  lemma AnswerDependsOnPayload(v: Vault, w: Vault, disk: Disk, u: i32, f: i32)
    requires forall data :: w.sign(data) == v.sign(data)
    requires FilePath(u, f) in disk ==> w.open(u, disk[FilePath(u, f)]) == v.open(u, disk[FilePath(u, f)])
    ensures Lookup(w, disk, u, f) == Lookup(v, disk, u, f)
  {
    var payload := Read(disk, FilePath(u, f));
    ParseIgnoresSignerIdentity(w.sign, v.sign, v.open(u, payload));
    ParseIgnoresSignerIdentity(w.sign, v.sign, Read(disk, PlaintextFilePath(u, f)));
    hide FilePath, PlaintextFilePath, Parse;
  }

  lemma KeysChangeKeepsAnswers(w: World, next: Vault, u: i32, f: i32)
    requires KeepsMeaning(w, next)
    ensures Lookup(next, w.disk, u, f) == Lookup(w.vault, w.disk, u, f)
  {
    hide Lookup;
    AnswerDependsOnPayload(w.vault, next, w.disk, u, f);
  }

  lemma SaveRefines(w: World, a: Store, t: FaceTemplate, sealed: seq<byte>) returns (next: Store)
    requires Represents(w, a) && Enabled(w, Save(t, sealed))
    ensures AbstractStep(w.vault.sign, a, Save(t, sealed), Done, next) && Represents(Exec(w, Save(t, sealed)), next)
  {
    hide Lookup, Saved, Stored;
    next := Set(a, t.userId, t.faceId, if t.version == CURRENT_VERSION then Some(Stored(w.vault.sign, t)) else None);
    LookupAfterSave(w.vault, w.disk, t, sealed);
    forall u: i32, f: i32
      ensures Lookup(w.vault, Saved(w.vault, w.disk, t, sealed), u, f) == Get(next, u, f)
    {
      if u != t.userId || f != t.faceId {
        SavingLeavesOthersAlone(w.vault, w.disk, t, sealed, u, f);
      }
    }
  }

  lemma CutSaveRefines(w: World, a: Store, op: Op) returns (next: Store)
    requires op.CutSave? && Represents(w, a) && Enabled(w, op)
    ensures AbstractStep(w.vault.sign, a, op, Done, next) && Represents(Exec(w, op), next)
  {
    var t, left := op.t, op.left;
    EverySaveStageIsOldOrNew(w.vault, w.disk, t, op.sealed, left);
    var answer := Lookup(w.vault, left, t.userId, t.faceId);
    next := if answer == Get(a, t.userId, t.faceId) then a else Set(a, t.userId, t.faceId, answer);
    forall u: i32, f: i32
      ensures Lookup(w.vault, left, u, f) == Get(next, u, f)
    {
    }
  }

  lemma ScanReplyRefines(w: World, a: Store, u: i32)
    requires Represents(w, a)
    ensures ScanResult(w.vault, w.disk, u) == FacesOf(a, u)
  {
    hide Lookup, ScanResult;
    var found, faces := ScanResult(w.vault, w.disk, u), FacesOf(a, u);
    forall f: i32
      ensures f in found <==> f in faces
      ensures f in found ==> found[f] == faces[f]
    {
      ScanFindsExactlyTheLoadable(w.vault, w.disk, u, f);
      assert Lookup(w.vault, w.disk, u, f) == Get(a, u, f);
      if (u, f) in a {
        assert f in set k | k in a && k.0 == u :: k.1;
      }
    }
  }

  lemma FaultyScanAnswers(w: World, u: i32, entries: seq<string>, services: Services, x: i32, f: i32)
    requires IsListing(w.disk, u, entries) && forall i :: FailsLike(services(i), w.vault)
    ensures var found, before, after :=
              DirectoryScan.Found(services, w.disk, u, entries), Lookup(w.vault, w.disk, x, f),
              Lookup(w.vault, Left(services, w.disk, u, entries), x, f);
            && (x != u || f == -1 ==> after == before)
            && (x == u && f != -1 ==> (after.Some? <==> f in found))
            && (x == u && f in found ==> f != -1 && before.Some? && after in {before, Some(found[f])})
  {
    LookupAfterScan(services, w.vault, w.disk, u, entries, x, f);
    FoundIsFirstLoad(services, w.disk, u, entries, f);
    hide Lookup, FirstLoad, FirstIndex, Without, DirectoryScan.Found, Left, IsListing, FailsLike,
      LostEncrypted, FromEncrypted, FromPlaintext;
    if x == u && f in DirectoryScan.Found(services, w.disk, u, entries) {
      FoundIsNotSkipped(services, w.disk, u, entries, f);
      ReturnedFaceKeepsItsAnswerIff(services, w.vault, w.disk, u, entries, f);
      ReturnedFaceLoadedBefore(services, w.vault, w.disk, u, entries, f);
    }
  }

  lemma FoundIsNotSkipped(services: Services, disk: Disk, u: i32, entries: seq<string>, f: i32)
    requires f in DirectoryScan.Found(services, disk, u, entries)
    ensures f != -1
  {
    hide FirstLoad;
  }

  lemma ReturnedFaceLoadedBefore(services: Services, w: Vault, disk: Disk, u: i32, entries: seq<string>, f: i32)
    requires forall i :: FailsLike(services(i), w)
    requires FirstLoad(services, disk, u, entries, |entries|, f).Some?
    ensures Lookup(w, disk, u, f).Some?
  {
    var i := FirstIndex(services, disk, u, entries, |entries|, f);
    FirstIndexIsFirst(services, disk, u, entries, |entries|, f);
    var d := Without(disk, u, entries, i, f);
    FailingServiceReadsTheSame(services(i), w, d, u, f);
    hide FirstLoad, FirstIndex, FailsLike, Without, UserDirectory, Accept, FilePath, PlaintextFilePath;
    WithoutIsPart(disk, u, entries, i, f);
  }

  lemma FaultyScanRefines(w: World, a: Store, u: i32, entries: seq<string>, services: Services) returns (next: Store)
    requires Represents(w, a) && Enabled(w, FaultyScan(u, entries, services))
    ensures AbstractStep(w.vault.sign, a, FaultyScan(u, entries, services), ReplyOf(w, FaultyScan(u, entries, services)), next)
    ensures Represents(Exec(w, FaultyScan(u, entries, services)), next)
  {
    var left := w.(disk := Left(services, w.disk, u, entries));
    var found := DirectoryScan.Found(services, w.disk, u, entries);
    next := Meaning(left);
    MeaningIsRepresented(left);
    hide Lookup, DirectoryScan.Found, Left, Meaning, FailsLike, IsListing;
    forall x: i32, f: i32
      ensures Lookup(w.vault, w.disk, x, f) == Get(a, x, f) && Lookup(w.vault, left.disk, x, f) == Get(next, x, f)
      ensures x != u || f == -1 ==> Get(next, x, f) == Get(a, x, f)
      ensures x == u && f != -1 ==> ((u, f) in next <==> f in found)
      ensures x == u && f in found ==> f != -1 && (u, f) in a && Get(next, x, f) in {Get(a, x, f), Some(found[f])}
    {
      FaultyScanAnswers(w, u, entries, services, x, f);
    }
    forall f | f in found
      ensures f in FacesOf(a, u)
    {
      assert Lookup(w.vault, w.disk, u, f) == Get(a, u, f);
      assert f in set k | k in a && k.0 == u :: k.1;
    }
    forall k: (i32, i32)
      ensures k in next <==> k in a && (k.0 != u || k.1 == -1 || k.1 in found)
      ensures k in next ==>
                next[k] == a[k] || (k.0 == u && k.1 != -1 && k.1 in found && next[k] == found[k.1])
    {
      assert Lookup(w.vault, w.disk, k.0, k.1) == Get(a, k.0, k.1);
      assert k == (k.0, k.1);
    }
  }

  lemma StepRefines(w: World, a: Store, op: Op) returns (next: Store)
    requires Represents(w, a) && Enabled(w, op)
    ensures AbstractStep(w.vault.sign, a, op, ReplyOf(w, op), next)
    ensures Represents(Exec(w, op), next)
  {
    hide Lookup, Deleted, Cleaned, UserRemoved, ScanResult, FacesOf, FailsLike, Left, DirectoryScan.Found, IsListing;
    var v, disk := w.vault, w.disk;
    match op
    case Save(t, sealed) => next := SaveRefines(w, a, t, sealed);
    case CutSave(_, _, _) => next := CutSaveRefines(w, a, op);
    case Load(u, f) => next := a;
    case Delete(u, f) =>
      next := Set(a, u, f, None);
      forall x: i32, y: i32
        ensures Lookup(v, Deleted(disk, u, f), x, y) == Get(next, x, y)
      {
        LookupAfterDelete(v, disk, u, f, x, y);
      }
    case Scan(u) =>
      next := a;
      ScanReplyRefines(w, a, u);
      forall x: i32, y: i32
        ensures Lookup(v, Cleaned(v, disk, u), x, y) == Get(a, x, y)
      {
        CleaningKeepsAnswers(v, disk, u, x, y);
      }
    case RemoveUser(u) =>
      next := map k | k in a && k.0 != u :: a[k];
      forall x: i32, y: i32
        ensures Lookup(v, UserRemoved(disk, u), x, y) == Get(next, x, y)
      {
        LookupAfterRemoveUser(v, disk, u, x, y);
      }
    case FaultyLoad(u, f, service) =>
      next := a;
      if Lookup(service, disk, u, f).Some? {
        FailingServiceReadsTheSame(service, v, disk, u, f);
        assert Lookup(v, disk, u, f) == Get(a, u, f);
      }
    case FaultyScan(u, entries, services) => next := FaultyScanRefines(w, a, u, entries, services);
    case KeysChange(vault) =>
      next := a;
      forall x: i32, y: i32
        ensures Lookup(vault, disk, x, y) == Get(a, x, y)
      {
        KeysChangeKeepsAnswers(w, vault, x, y);
      }
  }

  // ---------------------------------------------------------------- refinement, whole runs

  /** The one abstract store that a disk represents. */
  ghost function Meaning(w: World): Store {
    map u: int, f: int
      | -0x8000_0000 <= u < 0x8000_0000 && -0x8000_0000 <= f < 0x8000_0000 && Lookup(w.vault, w.disk, u, f).Some?
      :: (u, f) := Lookup(w.vault, w.disk, u, f).value
  }

  lemma MeaningIsRepresented(w: World)
    ensures Represents(w, Meaning(w))
  {
  }

  lemma StoresWithEqualAnswersAreEqual(a: Store, b: Store)
    requires forall u: i32, f: i32 :: Get(a, u, f) == Get(b, u, f)
    ensures a == b
  {
    forall k | k in a || k in b
      ensures k in a && k in b && a[k] == b[k]
    {
      assert Get(a, k.0, k.1) == Get(b, k.0, k.1);
      assert k == (k.0, k.1);
    }
  }

  /** The disk determines the store it represents. */
  lemma MeaningIsUnique(w: World, a: Store)
    requires Represents(w, a)
    ensures a == Meaning(w)
  {
    var b := Meaning(w);
    MeaningIsRepresented(w);
    forall u: i32, f: i32
      ensures Get(a, u, f) == Get(b, u, f)
    {
      var answer := Lookup(w.vault, w.disk, u, f);
      assert answer == Get(a, u, f) && answer == Get(b, u, f);
    }
    StoresWithEqualAnswersAreEqual(a, b);
  }

  function WorldAfter(w: World, ops: seq<Op>): World {
    if ops == [] then w else Exec(WorldAfter(w, ops[..|ops| - 1]), ops[|ops| - 1])
  }

  ghost predicate IsRun(w: World, ops: seq<Op>) {
    ops != [] ==> IsRun(w, ops[..|ops| - 1]) && Enabled(WorldAfter(w, ops[..|ops| - 1]), ops[|ops| - 1])
  }

  /** The replies of a run, in order. */
  function Replies(w: World, ops: seq<Op>): seq<Reply> {
    if ops == [] then []
    else Replies(w, ops[..|ops| - 1]) + [ReplyOf(WorldAfter(w, ops[..|ops| - 1]), ops[|ops| - 1])]
  }

  /** An abstract run of the same operations from `a` to `last`, with its replies. The MACs are
      those in force when each operation runs. */
  ghost predicate IsAbstractRun(w: World, a: Store, ops: seq<Op>, replies: seq<Reply>, last: Store) {
    if ops == [] then a == last && replies == []
    else
      var n := |ops| - 1;
      && |replies| == |ops|
      && exists mid ::
           && IsAbstractRun(w, a, ops[..n], replies[..n], mid)
           && AbstractStep(WorldAfter(w, ops[..n]).vault.sign, mid, ops[n], replies[n], last)
  }

  /** Every run of saves, cut saves, loads, deletes, scans and key changes, from any disk, with a key
      service that may fail during any of them, is a run of the abstract store with the same replies:
      each load is a lookup, each completed save an update, each scan lists exactly the user's faces, and
      a scan under a failing service loses exactly the faces it does not list and leaves the others as
      they were or as listed. */
  lemma {:induction false} EveryRunRefines(w: World, ops: seq<Op>)
    requires IsRun(w, ops)
    ensures IsAbstractRun(w, Meaning(w), ops, Replies(w, ops), Meaning(WorldAfter(w, ops)))
    decreases |ops|
  {
    if ops == [] {
    } else {
      var n := |ops| - 1;
      var front, last := ops[..n], ops[n];
      EveryRunRefines(w, front);
      var before := WorldAfter(w, front);
      MeaningIsRepresented(before);
      var next := StepRefines(before, Meaning(before), last);
      MeaningIsUnique(Exec(before, last), next);
      var replies := Replies(w, ops);
      assert |replies| == |ops| && replies[..n] == Replies(w, front) by {
        OneReplyEach(w, front);
      }
    }
  }

  lemma {:induction false} OneReplyEach(w: World, ops: seq<Op>)
    ensures |Replies(w, ops)| == |ops|
  {
    if ops == [] {
    } else {
      OneReplyEach(w, ops[..|ops| - 1]);
    }
  }
}
