/** How long a template saved without encryption stays on disk. */
module PlaintextFallback {
  import opened Wrappers
  import opened Bytes
  import opened TemplateSerializer
  import opened FileNames
  import opened TemplateDisk
  import opened DirectoryScan
  import opened StoreRuns

  predicate IsFor(t: FaceTemplate, u: i32, f: i32) {
    t.userId == u && t.faceId == f
  }

  /** The operation writes the plaintext file of the face: a save for which encryption failed, cut at the rename
      at the earliest. */
  predicate Creates(w: World, op: Op, u: i32, f: i32) {
    match op
    case Save(t, sealed) => IsFor(t, u, f) && sealed == []
    case CutSave(t, sealed, left) =>
      IsFor(t, u, f) && sealed == [] && left in {Renamed(w.vault, w.disk, t, sealed), Saved(w.vault, w.disk, t, sealed)}
    case _ => false
  }

  /** The operation removes it: a completed encrypted save of the same face, its deletion, the removal of the
      user, or a scan of the user that meets the file before the face has loaded. */
  predicate Removes(w: World, op: Op, u: i32, f: i32) {
    match op
    case Save(t, sealed) => IsFor(t, u, f) && sealed != []
    case CutSave(t, sealed, left) => IsFor(t, u, f) && sealed != [] && left == Saved(w.vault, w.disk, t, sealed)
    case Delete(x, g) => x == u && g == f
    case RemoveUser(x) => x == u
    case Scan(x) => x == u && f != -1 && Lookup(w.vault, w.disk, u, f).None?
    case FaultyScan(x, entries, services) => x == u && f != -1 && IsMetTooEarly(services, w.disk, u, entries, f)
    case _ => false
  }

  predicate IsMetTooEarly(services: Services, disk: Disk, u: i32, entries: seq<string>, f: i32) {
    exists j :: 0 <= j < |entries| && entries[j] == PlaintextFilePath(u, f).name
                && FirstLoad(services, disk, u, entries, j + 1, f).None?
  }

  predicate HasPlaintext(disk: Disk, u: i32, f: i32) {
    PlaintextFilePath(u, f) in disk
  }

  // ---------------------------------------------------------------- one operation

  lemma PlaintextAfterStage(v: Vault, disk: Disk, t: FaceTemplate, sealed: seq<byte>, d: Disk, u: i32, f: i32)
    requires IsSaveStage(v, disk, t, sealed, d)
    ensures var p := PlaintextFilePath(u, f);
            && (IsFor(t, u, f) && sealed == [] && d in {Renamed(v, disk, t, sealed), Saved(v, disk, t, sealed)} ==> p in d)
            && (IsFor(t, u, f) && sealed != [] && d == Saved(v, disk, t, sealed) ==> p !in d)
            && (!(IsFor(t, u, f) && sealed == [] && d in {Renamed(v, disk, t, sealed), Saved(v, disk, t, sealed)})
                && !(IsFor(t, u, f) && sealed != [] && d == Saved(v, disk, t, sealed)) ==>
                  (p in d <==> p in disk) && (p in d ==> d[p] == disk[p]))
  {
    FilesAreSeparate(t.userId, t.faceId, u, f);
    FilesAreSeparate(u, f, t.userId, t.faceId);
    hide Contents, FilePath, PlaintextFilePath, TempPath;
    if junk :| d == TempHolding(disk, FinalPath(t, sealed), junk) {
      assert PlaintextFilePath(u, f) != TempPath(FinalPath(t, sealed));
    }
  }

  lemma PlaintextAfterDelete(disk: Disk, x: i32, g: i32, u: i32, f: i32)
    ensures HasPlaintext(Deleted(disk, x, g), u, f) <==> HasPlaintext(disk, u, f) && !(x == u && g == f)
  {
    var p, rest := PlaintextFilePath(u, f), disk - {FilePath(x, g), PlaintextFilePath(x, g)};
    FilesAreSeparate(x, g, u, f);
    FilesAreSeparate(u, f, x, g);
    UserDirectoryInjective(u, x, "", "");
    assert UserDirectory(u) + "" == UserDirectory(u) && UserDirectory(x) + "" == UserDirectory(x);
    FilesAreTemplates(u, f);
    assert p.dir == UserDirectory(u);
    hide PlaintextFilePath, FilePath, UserDirectory, IsTemplateName;
    assert p in rest && x == u ==> HasFaces(rest, x);
  }

  lemma PlaintextAfterRemoveUser(disk: Disk, x: i32, u: i32, f: i32)
    ensures HasPlaintext(UserRemoved(disk, x), u, f) <==> HasPlaintext(disk, u, f) && x != u
  {
    UserDirectoryInjective(u, x, "", "");
    assert UserDirectory(u) + "" == UserDirectory(u) && UserDirectory(x) + "" == UserDirectory(x);
  }

  lemma PlaintextAfterScan(v: Vault, disk: Disk, x: i32, u: i32, f: i32)
    ensures HasPlaintext(Cleaned(v, disk, x), u, f)
       <==> HasPlaintext(disk, u, f) && !(x == u && f != -1 && Lookup(v, disk, u, f).None?)
  {
    FileNamesOf(u, f);
    UserDirectoryInjective(u, x, "", "");
    assert UserDirectory(u) + "" == UserDirectory(u) && UserDirectory(x) + "" == UserDirectory(x);
    hide PlaintextFilePath, FilePath, UserDirectory, ParsedId, Lookup;
  }

  lemma PlaintextAfterFaultyScan(services: Services, disk: Disk, x: i32, entries: seq<string>, u: i32, f: i32)
    requires IsListing(disk, x, entries)
    ensures HasPlaintext(Left(services, disk, x, entries), u, f)
       <==> HasPlaintext(disk, u, f) && !(x == u && f != -1 && IsMetTooEarly(services, disk, u, entries, f))
  {
    FileNamesOf(u, f);
    var p := PlaintextFilePath(u, f);
    if x != u || f == -1 {
      OtherFilesStay(services, disk, x, entries, u, p);
    } else {
      hide FirstLoad, PlaintextFilePath, FilePath, UserDirectory, ParsedId;
      assert p == Path(UserDirectory(u), p.name);
      if p in Removed(services, disk, u, entries, |entries|) {
        var j :| 0 <= j < |entries| && IsRemoved(services, disk, u, entries, j) && p == Path(UserDirectory(u), entries[j]);
        assert entries[j] == p.name;
      }
      if j :| 0 <= j < |entries| && entries[j] == p.name && FirstLoad(services, disk, u, entries, j + 1, f).None? {
        assert IsRemoved(services, disk, u, entries, j);
      }
    }
  }

  lemma SavedIsAStage(v: Vault, disk: Disk, t: FaceTemplate, sealed: seq<byte>)
    ensures IsSaveStage(v, disk, t, sealed, Saved(v, disk, t, sealed))
  {
  }

  /** After any operation the plaintext file is there if and only if the operation wrote it, or it was there and
      the operation does not remove it. */
  lemma PlaintextAfterOp(w: World, op: Op, u: i32, f: i32)
    requires Enabled(w, op)
    ensures HasPlaintext(Exec(w, op).disk, u, f) <==> Creates(w, op, u, f) || (HasPlaintext(w.disk, u, f) && !Removes(w, op, u, f))
  {
    hide Lookup, Saved, Renamed, Deleted, UserRemoved, Cleaned, Left, IsSaveStage, PlaintextFilePath, IsMetTooEarly;
    match op
    case Save(t, sealed) =>
      SavedIsAStage(w.vault, w.disk, t, sealed);
      PlaintextAfterStage(w.vault, w.disk, t, sealed, Saved(w.vault, w.disk, t, sealed), u, f);
    case CutSave(t, sealed, left) => PlaintextAfterStage(w.vault, w.disk, t, sealed, left, u, f);
    case Delete(x, g) => PlaintextAfterDelete(w.disk, x, g, u, f);
    case RemoveUser(x) => PlaintextAfterRemoveUser(w.disk, x, u, f);
    case Scan(x) => PlaintextAfterScan(w.vault, w.disk, x, u, f);
    case FaultyScan(x, entries, services) => PlaintextAfterFaultyScan(services, w.disk, x, entries, u, f);
    case _ =>
  }

  // ---------------------------------------------------------------- whole runs

  /** The file was there at the start (`k` is 0), or written by operation `k - 1`, and nothing has removed it since. */
  predicate StaysFrom(w: World, ops: seq<Op>, k: nat, u: i32, f: i32)
    requires k <= |ops|
  {
    && (if k == 0 then HasPlaintext(w.disk, u, f) else Creates(WorldAfter(w, ops[..k - 1]), ops[k - 1], u, f))
    && forall i :: k <= i < |ops| ==> !Removes(WorldAfter(w, ops[..i]), ops[i], u, f)
  }

  lemma StaysOneMore(w: World, ops: seq<Op>, k: nat, u: i32, f: i32)
    requires k < |ops|
    ensures var front := ops[..|ops| - 1];
            StaysFrom(w, ops, k, u, f) <==> StaysFrom(w, front, k, u, f) && !Removes(WorldAfter(w, front), ops[|ops| - 1], u, f)
  {
    hide WorldAfter, Creates, Removes, HasPlaintext;
    var front := ops[..|ops| - 1];
    assert k > 0 ==> front[..k - 1] == ops[..k - 1];
    assert forall i :: k <= i < |front| ==> front[..i] == ops[..i] && front[i] == ops[i];
    if StaysFrom(w, ops, k, u, f) {
      assert !Removes(WorldAfter(w, ops[..|ops| - 1]), ops[|ops| - 1], u, f);
    }
  }

  /** Over any run, a face has a plaintext file at the end if and only if it had one, or one was written, and none
      of the operations after that removes it: the key service working again is not among them. */
  lemma {:induction false} PlaintextOnDiskIff(w: World, ops: seq<Op>, u: i32, f: i32)
    requires IsRun(w, ops)
    ensures HasPlaintext(WorldAfter(w, ops).disk, u, f) <==> exists k :: 0 <= k <= |ops| && StaysFrom(w, ops, k, u, f)
    decreases |ops|
  {
    hide Enabled, Exec, Creates, Removes, HasPlaintext;
    if ops == [] {
      assert StaysFrom(w, ops, 0, u, f) <==> HasPlaintext(w.disk, u, f);
    } else {
      var front, last := ops[..|ops| - 1], ops[|ops| - 1];
      PlaintextOnDiskIff(w, front, u, f);
      PlaintextAfterOp(WorldAfter(w, front), last, u, f);
      forall k: nat | k < |ops|
        ensures StaysFrom(w, ops, k, u, f) <==> StaysFrom(w, front, k, u, f) && !Removes(WorldAfter(w, front), last, u, f)
      {
        StaysOneMore(w, ops, k, u, f);
      }
      assert StaysFrom(w, ops, |ops|, u, f) <==> Creates(WorldAfter(w, front), last, u, f);
    }
  }

  lemma TwoOps(w: World, a: Op, b: Op)
    requires Enabled(w, a) && Enabled(Exec(w, a), b)
    ensures IsRun(w, [a, b]) && WorldAfter(w, [a, b]) == Exec(Exec(w, a), b)
  {
    hide Enabled, Exec;
    var none: seq<Op>, one, two := [], [a], [a, b];
    assert one[..|one| - 1] == none && two[..|two| - 1] == one;
    assert IsRun(w, none) && WorldAfter(w, none) == w;
    assert IsRun(w, one) && WorldAfter(w, one) == Exec(w, a);
    assert IsRun(w, two);
  }

  /** It happens: a template saved without encryption stays so, although the service can encrypt again and a new
      session has scanned the user's directory. */
  lemma FallbackOutlivesRecovery(u: i32, f: i32) returns (w: World, ops: seq<Op>, t: FaceTemplate, sealed: seq<byte>)
    ensures IsRun(w, ops) && |ops| == 2 && ops[0] == Save(t, []) && ops[1] == Scan(u) && IsFor(t, u, f)
    ensures sealed != [] && IsSealOf(w.vault, t, sealed)
    ensures HasPlaintext(WorldAfter(w, ops).disk, u, f)
  {
    w, t := World(PlainVault(), map[]), OneByteTemplate(u, f, 1);
    sealed := Serialized(w.vault.sign, t);
    ops := [Save(t, []), Scan(u)];
    PlainVaultSeals(t);
    FallbackIsScanned(w, t);
    hide PlainVault, Serialized, OneByteTemplate, IsRun, WorldAfter, Exec, HasPlaintext;
    TwoOps(w, ops[0], ops[1]);
  }

  lemma FallbackLoads(v: Vault, disk: Disk, t: FaceTemplate)
    requires Serialized(v.sign, t) != [] && t.version == CURRENT_VERSION
    ensures Lookup(v, Saved(v, disk, t, []), t.userId, t.faceId).Some?
    ensures HasPlaintext(Saved(v, disk, t, []), t.userId, t.faceId)
  {
    LookupAfterSave(v, disk, t, []);
    hide Serialized, Saved, Lookup, PlaintextFilePath, FilePath, Stored;
  }

  lemma FallbackIsScanned(w: World, t: FaceTemplate)
    requires Serialized(w.vault.sign, t) != [] && t.version == CURRENT_VERSION
    ensures HasPlaintext(Exec(Exec(w, Save(t, [])), Scan(t.userId)).disk, t.userId, t.faceId)
  {
    hide Serialized, Saved, Cleaned, Lookup, HasPlaintext;
    FallbackLoads(w.vault, w.disk, t);
    PlaintextAfterScan(w.vault, Saved(w.vault, w.disk, t, []), t.userId, t.userId, t.faceId);
  }
}
