/** Template storage, file-system step by file-system step. */
module FaceStorageManager {
  import opened Wrappers
  import opened Bytes
  import opened Strings
  import opened TemplateSerializer
  import opened FileNames
  import opened TemplateDisk
  import opened DirectoryScan

  /** What the foreign calls made by one save do: encryption, opening the temporary file, the rename,
      and the removal of the stale file. */
  datatype SaveIo = SaveIo(seal: (i32, seq<byte>) -> seq<byte>, opens: bool, renames: bool, removes: bool)

  /** Encryption fails, or gives a payload that decrypts to the data. */
  ghost predicate SealsHonestly(v: Vault, io: SaveIo) {
    forall u: i32, data: seq<byte> :: io.seal(u, data) == [] || v.open(u, io.seal(u, data)) == data
  }

  /** `ts` holds exactly the values of `m`, each face once. */
  ghost predicate Enumerates(ts: seq<FaceTemplate>, m: map<i32, FaceTemplate>) {
    && (forall i, j :: 0 <= i < j < |ts| ==> ts[i].faceId != ts[j].faceId)
    && (forall i :: 0 <= i < |ts| ==> ts[i].faceId in m && m[ts[i].faceId] == ts[i])
    && (forall f :: f in m ==> m[f] in ts)
  }

  predicate DistinctFaces(ts: seq<FaceTemplate>) {
    forall i, j :: 0 <= i < j < |ts| ==> ts[i].faceId != ts[j].faceId
  }

  function IdsOf(ts: seq<FaceTemplate>): set<i32> {
    set t | t in ts :: t.faceId
  }

  /** Every template of `ts` is the first successful load of its face. */
  ghost predicate AreFirstLoads(services: Services, disk: Disk, u: i32, entries: seq<string>, n: nat, ts: seq<FaceTemplate>)
    requires n <= |entries|
  {
    forall t :: t in ts ==> FirstLoad(services, disk, u, entries, n, t.faceId) == Some(t)
  }

  /** `ts` holds the first successful load of exactly the faces in `loaded`, each once. */
  ghost predicate HoldsLoaded(services: Services, disk: Disk, u: i32, entries: seq<string>, n: nat,
                              ts: seq<FaceTemplate>, loaded: set<i32>)
    requires n <= |entries|
  {
    && DistinctFaces(ts) && loaded == IdsOf(ts) && AreFirstLoads(services, disk, u, entries, n, ts)
    && (forall f: i32 :: f in loaded <==> FirstLoad(services, disk, u, entries, n, f).Some?)
  }

  /** An entry that is skipped, or whose attempt fails, adds no template. */
  lemma HoldsWithoutMore(services: Services, disk: Disk, u: i32, entries: seq<string>, n: nat, ts: seq<FaceTemplate>, loaded: set<i32>)
    requires n < |entries| && HoldsLoaded(services, disk, u, entries, n, ts, loaded)
    requires forall f: i32 ::
               FirstLoad(services, disk, u, entries, n + 1, f) == FirstLoad(services, disk, u, entries, n, f)
    ensures HoldsLoaded(services, disk, u, entries, n + 1, ts, loaded)
  {
    hide FirstLoad;
  }

  lemma HoldsOneMore(services: Services, disk: Disk, u: i32, entries: seq<string>, n: nat, ts: seq<FaceTemplate>, loaded: set<i32>,
                     f: i32, t: FaceTemplate)
    requires n < |entries| && HoldsLoaded(services, disk, u, entries, n, ts, loaded)
    requires ParsedId(entries[n]) == Some(f) && f !in loaded
    requires FirstLoad(services, disk, u, entries, n + 1, f) == Some(t)
    requires forall g: i32 :: g != f ==>
               FirstLoad(services, disk, u, entries, n + 1, g) == FirstLoad(services, disk, u, entries, n, g)
    ensures HoldsLoaded(services, disk, u, entries, n + 1, ts + [t], loaded + {f})
  {
    FirstLoadIsOfTheFace(services, disk, u, entries, n + 1, f);
    OneMoreFace(ts, t);
    hide FirstLoad, ParsedId, IdsOf, DistinctFaces;
    assert AreFirstLoads(services, disk, u, entries, n + 1, ts + [t]) by {
      forall s | s in ts + [t]
        ensures FirstLoad(services, disk, u, entries, n + 1, s.faceId) == Some(s)
      {
        assert s in ts ==> s.faceId in loaded by {
          MemberId(ts, s);
        }
      }
    }
  }

  lemma MemberId(ts: seq<FaceTemplate>, t: FaceTemplate)
    ensures t in ts ==> t.faceId in IdsOf(ts)
  {
  }

  lemma OneMoreFace(ts: seq<FaceTemplate>, t: FaceTemplate)
    requires DistinctFaces(ts) && t.faceId !in IdsOf(ts)
    ensures DistinctFaces(ts + [t]) && IdsOf(ts + [t]) == IdsOf(ts) + {t.faceId}
  {
    forall i | 0 <= i < |ts|
      ensures ts[i].faceId != t.faceId
    {
      MemberId(ts, ts[i]);
    }
    assert forall s :: s in ts + [t] <==> s in ts || s == t;
    assert IdsOf(ts) <= IdsOf(ts + [t]);
  }

  lemma NothingMetYet(services: Services, disk: Disk, u: i32, entries: seq<string>)
    ensures disk - Removed(services, disk, u, entries, 0) == disk
    ensures HoldsLoaded(services, disk, u, entries, 0, [], {})
  {
  }

  /** An entry without an id, or of a face that has loaded. */
  lemma SkippedEntry(services: Services, disk: Disk, u: i32, entries: seq<string>, n: nat)
    requires n < |entries|
    requires ParsedId(entries[n]).Some? ==> FirstLoad(services, disk, u, entries, n, ParsedId(entries[n]).value).Some?
    ensures !IsRemoved(services, disk, u, entries, n)
    ensures forall f: i32 :: FirstLoad(services, disk, u, entries, n + 1, f) == FirstLoad(services, disk, u, entries, n, f)
  {
    hide Lookup, Without, ParsedId;
  }

  /** The entry of a face that has not loaded. */
  lemma TriedEntry(services: Services, disk: Disk, u: i32, entries: seq<string>, n: nat, f: i32)
    requires n < |entries| && ParsedId(entries[n]) == Some(f)
    requires FirstLoad(services, disk, u, entries, n, f).None?
    ensures FirstLoad(services, disk, u, entries, n + 1, f)
         == Lookup(services(n), disk - Removed(services, disk, u, entries, n), u, f)
    ensures IsRemoved(services, disk, u, entries, n) <==> FirstLoad(services, disk, u, entries, n + 1, f).None?
    ensures forall g: i32 :: g != f ==>
              FirstLoad(services, disk, u, entries, n + 1, g) == FirstLoad(services, disk, u, entries, n, g)
  {
    AttemptSeesWithout(services(n), services, disk, u, entries, n, f);
    hide Lookup, Without, ParsedId, Removed;
  }

  /** What an attempt does to the removed entries. */
  lemma RemovedOneMore(services: Services, disk: Disk, u: i32, entries: seq<string>, n: nat)
    requires n < |entries|
    ensures Removed(services, disk, u, entries, n + 1)
         == Removed(services, disk, u, entries, n)
            + if IsRemoved(services, disk, u, entries, n) then {Path(UserDirectory(u), entries[n])} else {}
  {
    hide IsRemoved, UserDirectory;
  }

  lemma HoldsFound(services: Services, disk: Disk, u: i32, entries: seq<string>, ts: seq<FaceTemplate>, loaded: set<i32>)
    requires HoldsLoaded(services, disk, u, entries, |entries|, ts, loaded)
    ensures Enumerates(ts, Found(services, disk, u, entries))
  {
    hide FirstLoad, Found;
    forall f: i32
      ensures f in Found(services, disk, u, entries) <==> FirstLoad(services, disk, u, entries, |entries|, f).Some?
      ensures f in Found(services, disk, u, entries) ==>
                Some(Found(services, disk, u, entries)[f]) == FirstLoad(services, disk, u, entries, |entries|, f)
    {
      FoundIsFirstLoad(services, disk, u, entries, f);
    }
    forall f | f in Found(services, disk, u, entries)
      ensures Found(services, disk, u, entries)[f] in ts
    {
      var t :| t in ts && t.faceId == f;
    }
    forall i | 0 <= i < |ts|
      ensures ts[i].faceId in Found(services, disk, u, entries) && Found(services, disk, u, entries)[ts[i].faceId] == ts[i]
    {
      assert ts[i] in ts;
    }
  }

  /** `after` has no file in `dir`, and every other file as it was. */
  ghost predicate HoldsAllBut(before: Disk, dir: string, after: Disk) {
    && (forall p :: p in after ==> p.dir != dir)
    && (forall p :: p in before && p.dir != dir ==> p in after && after[p] == before[p])
    && after.Keys <= before.Keys
  }

  /** A delete either takes the two files alone, or clears the directory. */
  lemma DeletedHoldsRest(disk: Disk, u: i32, f: i32)
    ensures var gone := {FilePath(u, f), PlaintextFilePath(u, f)};
            if exists p :: p in disk && p !in gone && p.dir == UserDirectory(u) && IsTemplateName(p.name)
            then Deleted(disk, u, f) == disk - gone
            else HoldsAllBut(disk, UserDirectory(u), Deleted(disk, u, f))
  {
    assert FilePath(u, f).dir == UserDirectory(u) == PlaintextFilePath(u, f).dir;
    hide UserDirectory, FilePath, PlaintextFilePath, IsTemplateName;
  }

  class FaceStorageManager {
    /** The key service when it works. */
    const vault: Vault
    var files: Disk

    constructor (vault: Vault, files: Disk)
      ensures this.vault == vault && this.files == files
    {
      this.vault := vault;
      this.files := files;
    }

    method ReadFile(path: Path) returns (data: seq<byte>)
      ensures data == Read(files, path)
    {
      if path !in files {
        return [];
      }
      data := files[path];
    }

    /** The write-to-temporary, rename and clean-up steps of a save. `steps` records the disk after
        every one of them. */
    method WriteAndRename(finalPath: Path, stalePath: Path, data: seq<byte>, io: SaveIo)
      returns (ok: bool, ghost steps: seq<Disk>)
      requires TempPath(finalPath) !in {finalPath, stalePath} && finalPath != stalePath
      modifies `files
      ensures ok <==> io.opens && io.renames
      ensures ok ==> files == (old(files) - {TempPath(finalPath)})[finalPath := data]
                              - (if io.removes then {stalePath} else {})
      ensures !ok ==> files in {old(files), old(files) - {TempPath(finalPath)}}
      ensures steps != [] && steps[0] == old(files) && steps[|steps| - 1] == files
      ensures forall i :: 0 <= i < |steps| ==> IsWriteStage(old(files), finalPath, stalePath, data, steps[i])
    {
      steps := [files];
      var tempPath := TempPath(finalPath);
      if !io.opens {
        return false, steps;
      }
      files := files[tempPath := []];
      assert files == TempHolding(old(files), finalPath, []);
      steps := steps + [files];
      files := files[tempPath := data];
      assert files == TempHolding(old(files), finalPath, data);
      steps := steps + [files];
      if !io.renames {
        files := files - {tempPath};
        assert files == old(files) - {tempPath};
        steps := steps + [files];
        return false, steps;
      }
      files := (files - {tempPath})[finalPath := files[tempPath]];
      assert files == (old(files) - {tempPath})[finalPath := data];
      steps := steps + [files];
      if stalePath in files {
        if io.removes {
          files := files - {stalePath};
        }
        steps := steps + [files];
      }
      return true, steps;
    }

    /** Succeeds exactly when the MAC, the open and the rename do, also when the stale file stays. A
        crash after any of its steps leaves one of `steps`; `SaveIsCrashAtomicIff` says what that
        means to a load. */
    method SaveTemplate(t: FaceTemplate, io: SaveIo) returns (ok: bool, ghost steps: seq<Disk>)
      requires SealsHonestly(vault, io)
      modifies `files
      ensures ok <==> Serialized(vault.sign, t) != [] && io.opens && io.renames
      ensures var sealed := io.seal(t.userId, Serialized(vault.sign, t));
              && IsSealOf(vault, t, sealed)
              && (ok ==> files == if io.removes then Saved(vault, old(files), t, sealed)
                                  else Renamed(vault, old(files), t, sealed))
              && (!ok ==> files in {old(files), TempUnlinked(old(files), t, sealed)})
      ensures steps != [] && steps[0] == old(files) && steps[|steps| - 1] == files
      ensures var sealed := io.seal(t.userId, Serialized(vault.sign, t));
              forall i :: 0 <= i < |steps| ==> IsSaveStage(vault, old(files), t, sealed, steps[i])
    {
      hide Serialized, UserDirectory, FaceName;
      var serializedData := Serialize(t, vault.sign);
      if serializedData == [] {
        return false, [files];
      }
      FilesAreSeparate(t.userId, t.faceId, t.userId, t.faceId);
      var finalPath := FilePath(t.userId, t.faceId);
      var stalePath := PlaintextFilePath(t.userId, t.faceId);
      var dataToWrite := io.seal(t.userId, serializedData);
      ghost var sealed := dataToWrite;
      if dataToWrite == [] {
        finalPath := stalePath;
        stalePath := FilePath(t.userId, t.faceId);
        dataToWrite := serializedData;
      }
      assert finalPath == FinalPath(t, sealed) && stalePath == StalePath(t, sealed);
      ok, steps := WriteAndRename(finalPath, stalePath, dataToWrite, io);
    }

    method DeserializeAndValidate(userId: i32, faceId: i32, data: seq<byte>, service: Vault, out: TemplateRecord)
      returns (ok: bool)
      modifies out
      ensures ok <==> Accept(service, userId, faceId, data).Some?
      ensures ok ==> out.Value() == Accept(service, userId, faceId, data).value
    {
      ok := Deserialize(data, service.sign, out);
      if ok && (out.userId != userId || out.faceId != faceId) {
        ok := false;
      }
    }

    /** With the key service answering as `service` does, a successful load fills `out` entirely from the one
        file that was accepted, also after a rejected encrypted file has left parts of itself there. */
    method LoadTemplate(userId: i32, faceId: i32, service: Vault, out: TemplateRecord) returns (ok: bool)
      modifies out
      ensures ok <==> Lookup(service, files, userId, faceId).Some?
      ensures ok ==> out.Value() == Lookup(service, files, userId, faceId).value
    {
      var encryptedData := ReadFile(FilePath(userId, faceId));
      if encryptedData != [] {
        var decryptedData := service.open(userId, encryptedData);
        if decryptedData != [] {
          ok := DeserializeAndValidate(userId, faceId, decryptedData, service, out);
          if ok {
            return;
          }
        }
      }
      var plaintextData := ReadFile(PlaintextFilePath(userId, faceId));
      if plaintextData == [] {
        return false;
      }
      ok := DeserializeAndValidate(userId, faceId, plaintextData, service, out);
    }

    /** `directory_iterator`: the entries of the user's directory in an arbitrary order. */
    method ListDirectory(userId: i32) returns (entries: seq<string>)
      ensures IsListing(files, userId, entries)
    {
      var dir := UserDirectory(userId);
      var todo := set p | p in files && p.dir == dir :: p.name;
      entries := [];
      assert forall n :: n in todo <==> Path(dir, n) in files;
      while todo != {}
        invariant forall i, j :: 0 <= i < j < |entries| ==> entries[i] != entries[j]
        invariant forall n :: n in entries ==> n !in todo
        invariant forall n :: n in entries || n in todo <==> Path(dir, n) in files
        decreases todo
      {
        var name :| name in todo;
        todo := todo - {name};
        entries := entries + [name];
      }
    }

    /** In whatever order the directory is listed, and whatever the key service does at each entry, every face
        comes back once, with what its first successful attempt loaded, and the entries at which an
        attempt failed are removed. With a service that answers alike throughout, the order does not
        matter: exactly the loadable faces come back and exactly the entries that do not load go. */
    method LoadAllTemplatesForUser(userId: i32, services: Services)
      returns (templates: seq<FaceTemplate>, ghost entries: seq<string>)
      modifies `files
      ensures IsListing(old(files), userId, entries)
      ensures Enumerates(templates, Found(services, old(files), userId, entries))
      ensures files == Left(services, old(files), userId, entries)
      ensures (forall i :: services(i) == vault) ==>
                Enumerates(templates, ScanResult(vault, old(files), userId)) && files == Cleaned(vault, old(files), userId)
    {
      hide Lookup, ScanInt, Contains, ScanResult, Cleaned, FirstLoad, Without, Removed;
      templates := [];
      var loadedFaceIds: set<i32> := {};
      var dir := UserDirectory(userId);
      var names := ListDirectory(userId);
      entries := names;
      ghost var disk := files;
      NothingMetYet(services, disk, userId, entries);
      for i := 0 to |names|
        invariant files == disk - Removed(services, disk, userId, entries, i)
        invariant HoldsLoaded(services, disk, userId, entries, i, templates, loadedFaceIds)
      {
        var filename := names[i];
        var faceId: i32 := -1;
        if IsTemplateName(filename) {
          var scanned := ScanInt(filename[5..]);
          if scanned.Some? {
            faceId := scanned.value;
          }
        }
        assert ParsedId(filename) == if faceId == -1 then None else Some(faceId);
        RemovedOneMore(services, disk, userId, entries, i);
        if faceId == -1 || faceId in loadedFaceIds {
          SkippedEntry(services, disk, userId, entries, i);
          HoldsWithoutMore(services, disk, userId, entries, i, templates, loadedFaceIds);
          continue;
        }
        TriedEntry(services, disk, userId, entries, i, faceId);
        var tmpl := new TemplateRecord();
        var ok := LoadTemplate(userId, faceId, services(i), tmpl);
        if ok {
          HoldsOneMore(services, disk, userId, entries, i, templates, loadedFaceIds, faceId, tmpl.Value());
          templates := templates + [tmpl.Value()];
          loadedFaceIds := loadedFaceIds + {faceId};
        } else {
          HoldsWithoutMore(services, disk, userId, entries, i, templates, loadedFaceIds);
          files := files - {Path(dir, filename)};
        }
      }
      HoldsFound(services, disk, userId, entries, templates, loadedFaceIds);
      if forall i :: services(i) == vault {
        SteadyScanIgnoresOrder(services, vault, disk, userId, entries);
      }
    }

    method DeleteTemplate(userId: i32, faceId: i32) returns (ok: bool)
      modifies `files
      ensures ok
      ensures files == Deleted(old(files), userId, faceId)
      ensures var gone := {FilePath(userId, faceId), PlaintextFilePath(userId, faceId)};
              if exists p :: p in old(files) && p !in gone && p.dir == UserDirectory(userId) && IsTemplateName(p.name)
              then files == old(files) - gone
              else HoldsAllBut(old(files), UserDirectory(userId), files)
    {
      hide UserDirectory, FilePath, PlaintextFilePath, IsTemplateName, HoldsAllBut;
      ghost var before := files;
      var path, plaintextPath := FilePath(userId, faceId), PlaintextFilePath(userId, faceId);
      if path in files {
        files := files - {path};
      }
      if plaintextPath in files {
        files := files - {plaintextPath};
      }
      assert files == old(files) - {path, plaintextPath};
      var entries := ListDirectory(userId);
      var hasFaces := false;
      for i := 0 to |entries|
        invariant !hasFaces && forall k :: 0 <= k < i ==> !IsTemplateName(entries[k])
      {
        if IsTemplateName(entries[i]) {
          hasFaces := true;
          assert Path(UserDirectory(userId), entries[i]) in files;
          break;
        }
      }
      assert hasFaces <==> HasFaces(files, userId) by {
        if HasFaces(files, userId) {
          var p :| p in files && p.dir == UserDirectory(userId) && IsTemplateName(p.name);
          assert p == Path(UserDirectory(userId), p.name);
        }
      }
      if !hasFaces {
        var _ := RemoveUser(userId);
      }
      DeletedHoldsRest(before, userId, faceId);
      return true;
    }

    method RemoveUser(userId: i32) returns (ok: bool)
      modifies `files
      ensures ok
      ensures files == UserRemoved(old(files), userId)
      ensures HoldsAllBut(old(files), UserDirectory(userId), files)
    {
      var dir := UserDirectory(userId);
      files := files - set p | p in files && p.dir == dir;
      return true;
    }
  }
}
