/** The directory scan as a function of the order in which it meets the entries and of the key service as
    it answers at each entry. */
module DirectoryScan {
  import opened Wrappers
  import opened Bytes
  import opened TemplateSerializer
  import opened FileNames
  import opened TemplateDisk

  /** The key service during the attempt to load for each entry. */
  type Services = nat -> Vault

  /** `entries` lists the user's directory, each name once, in any order. */
  ghost predicate IsListing(disk: Disk, u: i32, entries: seq<string>) {
    && (forall i, j :: 0 <= i < j < |entries| ==> entries[i] != entries[j])
    && (forall n :: n in entries <==> Path(UserDirectory(u), n) in disk)
  }

  predicate HasId(entries: seq<string>, i: int, f: i32) {
    0 <= i < |entries| && ParsedId(entries[i]) == Some(f)
  }

  /** The disk without the entries before the `n`-th that parse to `f`. */
  function Without(disk: Disk, u: i32, entries: seq<string>, n: nat, f: i32): Disk
    requires n <= |entries|
  {
    disk - set j | 0 <= j < n && HasId(entries, j, f) :: Path(UserDirectory(u), entries[j])
  }

  /** What the first attempt at `f` that succeeds, among the first `n` entries, gives. */
  function FirstLoad(services: Services, disk: Disk, u: i32, entries: seq<string>, n: nat, f: i32): Option<FaceTemplate>
    requires n <= |entries|
  {
    if n == 0 then None
    else
      var before := FirstLoad(services, disk, u, entries, n - 1, f);
      if before.Some? then before
      else if HasId(entries, n - 1, f) then Lookup(services(n - 1), Without(disk, u, entries, n - 1, f), u, f)
      else None
  }

  /** The entries that have been removed after the first `n`. */
  function Removed(services: Services, disk: Disk, u: i32, entries: seq<string>, n: nat): set<Path>
    requires n <= |entries|
  {
    set j | 0 <= j < n && IsRemoved(services, disk, u, entries, j) :: Path(UserDirectory(u), entries[j])
  }

  predicate IsRemoved(services: Services, disk: Disk, u: i32, entries: seq<string>, j: int) {
    0 <= j < |entries| && ParsedId(entries[j]).Some?
    && FirstLoad(services, disk, u, entries, j + 1, ParsedId(entries[j]).value).None?
  }

  /** The disk and the templates after the whole scan. */
  function Left(services: Services, disk: Disk, u: i32, entries: seq<string>): Disk {
    disk - Removed(services, disk, u, entries, |entries|)
  }

  function Found(services: Services, disk: Disk, u: i32, entries: seq<string>): map<i32, FaceTemplate> {
    map f | f in EntryIds(entries) && FirstLoad(services, disk, u, entries, |entries|, f).Some?
      :: FirstLoad(services, disk, u, entries, |entries|, f).value
  }

  function EntryIds(entries: seq<string>): set<i32> {
    set n | n in entries && ParsedId(n).Some? :: ParsedId(n).value
  }

  // ---------------------------------------------------------------- attempts

  lemma {:induction false} FirstLoadStays(services: Services, disk: Disk, u: i32, entries: seq<string>, m: nat, n: nat, f: i32)
    requires m <= n <= |entries|
    ensures FirstLoad(services, disk, u, entries, m, f).Some? ==>
              FirstLoad(services, disk, u, entries, n, f) == FirstLoad(services, disk, u, entries, m, f)
    decreases n
  {
    hide Lookup, Without;
    if m < n {
      FirstLoadStays(services, disk, u, entries, m, n - 1, f);
    }
  }

  lemma {:induction false} FirstLoadIsOfTheFace(services: Services, disk: Disk, u: i32, entries: seq<string>, n: nat, f: i32)
    requires n <= |entries|
    ensures var t := FirstLoad(services, disk, u, entries, n, f);
            t.Some? ==>
              && t.value.faceId == f && t.value.userId == u && t.value.version == CURRENT_VERSION
              && exists i :: i < n && HasId(entries, i, f)
  {
    hide Without, UserDirectory;
    if n > 0 {
      FirstLoadIsOfTheFace(services, disk, u, entries, n - 1, f);
      assert n - 1 < n;
    }
  }

  /** Files of a face that has not loaded yet are gone exactly if their entries have been met. */
  lemma NotLoadedFilesAreRemoved(services: Services, disk: Disk, u: i32, entries: seq<string>, n: nat, f: i32, p: Path)
    requires n <= |entries| && FirstLoad(services, disk, u, entries, n, f).None?
    requires p.dir == UserDirectory(u) && ParsedId(p.name) in {None, Some(f)}
    ensures p in disk - Removed(services, disk, u, entries, n) <==> p in Without(disk, u, entries, n, f)
  {
    hide FirstLoad, ParsedId;
    if j :| 0 <= j < n && HasId(entries, j, f) && p == Path(UserDirectory(u), entries[j]) {
      FirstLoadStays(services, disk, u, entries, j + 1, n, f);
      assert IsRemoved(services, disk, u, entries, j);
    }
    if p in Removed(services, disk, u, entries, n) {
      var j :| 0 <= j < n && IsRemoved(services, disk, u, entries, j) && p == Path(UserDirectory(u), entries[j]);
      assert HasId(entries, j, f);
    }
  }

  lemma FileNamesOf(u: i32, f: i32)
    ensures FilePath(u, f).dir == UserDirectory(u) && PlaintextFilePath(u, f).dir == UserDirectory(u)
    ensures ParsedId(FilePath(u, f).name) == if f == -1 then None else Some(f)
    ensures ParsedId(PlaintextFilePath(u, f).name) == if f == -1 then None else Some(f)
  {
    ScanRecoversName(f, false);
    ScanRecoversName(f, true);
  }

  /** An attempt at a face that has not loaded yet sees the disk without the face's entries met so far,
      whatever has been removed of other faces. */
  lemma AttemptSeesWithout(s: Vault, services: Services, disk: Disk, u: i32, entries: seq<string>, n: nat, f: i32)
    requires n <= |entries| && FirstLoad(services, disk, u, entries, n, f).None?
    ensures Lookup(s, disk - Removed(services, disk, u, entries, n), u, f) == Lookup(s, Without(disk, u, entries, n, f), u, f)
  {
    FileNamesOf(u, f);
    NotLoadedFilesAreRemoved(services, disk, u, entries, n, f, FilePath(u, f));
    NotLoadedFilesAreRemoved(services, disk, u, entries, n, f, PlaintextFilePath(u, f));
    hide Removed, FirstLoad, FilePath, PlaintextFilePath, UserDirectory, ParsedId;
    LookupReadsTwoFiles(s, disk - Removed(services, disk, u, entries, n), Without(disk, u, entries, n, f), u, f);
  }

  /** What the scan returns, face by face. */
  lemma FoundIsFirstLoad(services: Services, disk: Disk, u: i32, entries: seq<string>, f: i32)
    ensures f in Found(services, disk, u, entries) <==> FirstLoad(services, disk, u, entries, |entries|, f).Some?
    ensures f in Found(services, disk, u, entries) ==>
              Some(Found(services, disk, u, entries)[f]) == FirstLoad(services, disk, u, entries, |entries|, f)
  {
    FirstLoadIsOfTheFace(services, disk, u, entries, |entries|, f);
    hide FirstLoad, ParsedId;
    if FirstLoad(services, disk, u, entries, |entries|, f).Some? {
      var i :| i < |entries| && HasId(entries, i, f);
      assert entries[i] in entries;
    }
  }

  // ---------------------------------------------------------------- after the scan

  /** The entry at which `f` first loads, among the first `n`. */
  function FirstIndex(services: Services, disk: Disk, u: i32, entries: seq<string>, n: nat, f: i32): (i: nat)
    requires n <= |entries| && FirstLoad(services, disk, u, entries, n, f).Some?
    ensures i < n
  {
    if FirstLoad(services, disk, u, entries, n - 1, f).Some? then FirstIndex(services, disk, u, entries, n - 1, f)
    else n - 1
  }

  lemma {:induction false} FirstIndexIsFirst(services: Services, disk: Disk, u: i32, entries: seq<string>, n: nat, f: i32)
    requires n <= |entries| && FirstLoad(services, disk, u, entries, n, f).Some?
    ensures var i := FirstIndex(services, disk, u, entries, n, f);
            && HasId(entries, i, f)
            && FirstLoad(services, disk, u, entries, i, f).None?
            && FirstLoad(services, disk, u, entries, n, f) == Lookup(services(i), Without(disk, u, entries, i, f), u, f)
  {
    hide Lookup, Without, ParsedId;
    if FirstLoad(services, disk, u, entries, n - 1, f).Some? {
      FirstIndexIsFirst(services, disk, u, entries, n - 1, f);
    }
  }

  /** The entries of a face are removed up to the one at which it loads, or all of them. */
  lemma RemovedOfLoaded(services: Services, disk: Disk, u: i32, entries: seq<string>, f: i32, p: Path)
    requires FirstLoad(services, disk, u, entries, |entries|, f).Some?
    requires p.dir == UserDirectory(u) && ParsedId(p.name) in {None, Some(f)}
    ensures var i := FirstIndex(services, disk, u, entries, |entries|, f);
            p in Left(services, disk, u, entries) <==> p in Without(disk, u, entries, i, f)
  {
    hide ParsedId, UserDirectory, Lookup;
    var n, i := |entries|, FirstIndex(services, disk, u, entries, |entries|, f);
    FirstIndexIsFirst(services, disk, u, entries, n, f);
    if j :| 0 <= j < i && HasId(entries, j, f) && p == Path(UserDirectory(u), entries[j]) {
      FirstLoadStays(services, disk, u, entries, j + 1, i, f);
      assert IsRemoved(services, disk, u, entries, j);
    }
    if p in Removed(services, disk, u, entries, n) {
      var j :| 0 <= j < n && IsRemoved(services, disk, u, entries, j) && p == Path(UserDirectory(u), entries[j]);
      assert HasId(entries, j, f);
      if i <= j {
        LoadsFrom(services, disk, u, entries, i, f);
        FirstLoadStays(services, disk, u, entries, i + 1, j + 1, f);
      }
    }
  }

  lemma LoadsFrom(services: Services, disk: Disk, u: i32, entries: seq<string>, i: nat, f: i32)
    requires i < |entries| && HasId(entries, i, f)
    requires FirstLoad(services, disk, u, entries, i, f).None?
    requires Lookup(services(i), Without(disk, u, entries, i, f), u, f).Some?
    ensures FirstLoad(services, disk, u, entries, i + 1, f).Some?
  {
  }

  /** The answers after a scan, to a load with any key service `w`: other users' faces and face -1 answer as
      before, a face that never loaded is gone, and one that did answers as it does without the
      entries at which it had failed. */
  lemma LookupAfterScan(services: Services, w: Vault, disk: Disk, u: i32, entries: seq<string>, x: i32, f: i32)
    requires IsListing(disk, u, entries)
    ensures Lookup(w, Left(services, disk, u, entries), x, f)
         == if x != u || f == -1 then Lookup(w, disk, x, f)
            else if FirstLoad(services, disk, u, entries, |entries|, f).None? then None
            else Lookup(w, Without(disk, u, entries, FirstIndex(services, disk, u, entries, |entries|, f), f), u, f)
  {
    FileNamesOf(x, f);
    var left, n := Left(services, disk, u, entries), |entries|;
    var a, b := FilePath(x, f), PlaintextFilePath(x, f);
    if x != u || f == -1 {
      OtherFilesStay(services, disk, u, entries, x, a);
      OtherFilesStay(services, disk, u, entries, x, b);
      LookupReadsTwoFiles(w, left, disk, x, f);
    } else if FirstLoad(services, disk, u, entries, n, f).None? {
      MetFilesAreWithout(disk, u, entries, f, a);
      MetFilesAreWithout(disk, u, entries, f, b);
      AttemptSeesWithout(w, services, disk, u, entries, n, f);
    } else {
      RemovedOfLoaded(services, disk, u, entries, f, a);
      RemovedOfLoaded(services, disk, u, entries, f, b);
      hide Left, FirstIndex, FirstLoad;
      LookupReadsTwoFiles(w, left, Without(disk, u, entries, FirstIndex(services, disk, u, entries, n, f), f), u, f);
    }
  }

  lemma OtherFilesStay(services: Services, disk: Disk, u: i32, entries: seq<string>, x: i32, p: Path)
    requires p.dir == UserDirectory(x) && (x != u || ParsedId(p.name) == None)
    ensures p in Left(services, disk, u, entries) <==> p in disk
  {
    hide FirstLoad, ParsedId;
    UserDirectoryInjective(u, x, "", "");
    assert UserDirectory(u) + "" == UserDirectory(u) && UserDirectory(x) + "" == UserDirectory(x);
  }

  lemma MetFilesAreWithout(disk: Disk, u: i32, entries: seq<string>, f: i32, p: Path)
    requires IsListing(disk, u, entries)
    requires p.dir == UserDirectory(u) && ParsedId(p.name) == Some(f)
    ensures p !in Without(disk, u, entries, |entries|, f)
  {
    hide ParsedId, UserDirectory;
    if p in disk {
      assert Path(UserDirectory(u), p.name) == p;
      var j :| 0 <= j < |entries| && entries[j] == p.name;
      assert HasId(entries, j, f);
    }
  }

  /** The encrypted file of `f` was met, and removed, before `f` loaded. */
  predicate LostEncrypted(services: Services, disk: Disk, u: i32, entries: seq<string>, f: i32)
    requires FirstLoad(services, disk, u, entries, |entries|, f).Some?
  {
    FilePath(u, f) in disk
    && FilePath(u, f) !in Without(disk, u, entries, FirstIndex(services, disk, u, entries, |entries|, f), f)
  }

  /** A key service that fails now and then: a face that the scan returns keeps its answer if and only if its
      encrypted file was not removed before it loaded, or its plaintext file holds the same template. */
  lemma ReturnedFaceKeepsItsAnswerIff(services: Services, w: Vault, disk: Disk, u: i32, entries: seq<string>, f: i32)
    requires IsListing(disk, u, entries) && f != -1
    requires forall i :: FailsLike(services(i), w)
    requires FirstLoad(services, disk, u, entries, |entries|, f).Some?
    ensures var after := Lookup(w, Left(services, disk, u, entries), u, f);
            && after.Some?
            && (after == Lookup(w, disk, u, f)
                <==> !LostEncrypted(services, disk, u, entries, f) || FromPlaintext(w, disk, u, f) == Lookup(w, disk, u, f))
            && (LostEncrypted(services, disk, u, entries, f) ==>
                  after == FromPlaintext(w, disk, u, f) == FirstLoad(services, disk, u, entries, |entries|, f))
  {
    LookupAfterScan(services, w, disk, u, entries, u, f);
    var i := FirstIndex(services, disk, u, entries, |entries|, f);
    FirstIndexIsFirst(services, disk, u, entries, |entries|, f);
    var d := Without(disk, u, entries, i, f);
    FailingServiceReadsTheSame(services(i), w, d, u, f);
    hide FirstLoad, FirstIndex, FailsLike, Without, UserDirectory, Accept, FilePath, PlaintextFilePath;
    WithoutIsPart(disk, u, entries, i, f);
  }

  /** What the scan returned for a face is what it answers afterwards if and only if its encrypted file was lost
      on the way, or holds nothing else. */
  lemma ReturnedIsOnDiskIff(services: Services, w: Vault, disk: Disk, u: i32, entries: seq<string>, f: i32)
    requires IsListing(disk, u, entries) && f != -1
    requires forall i :: FailsLike(services(i), w)
    requires FirstLoad(services, disk, u, entries, |entries|, f).Some?
    ensures var returned := FirstLoad(services, disk, u, entries, |entries|, f);
            Lookup(w, Left(services, disk, u, entries), u, f) == returned
            <==> LostEncrypted(services, disk, u, entries, f) || FromEncrypted(w, disk, u, f) in {None, returned}
  {
    ReturnedFaceKeepsItsAnswerIff(services, w, disk, u, entries, f);
    LookupAfterScan(services, w, disk, u, entries, u, f);
    var i := FirstIndex(services, disk, u, entries, |entries|, f);
    FirstIndexIsFirst(services, disk, u, entries, |entries|, f);
    FailingServiceReadsTheSame(services(i), w, Without(disk, u, entries, i, f), u, f);
    hide FirstLoad, FirstIndex, FailsLike, Without, UserDirectory, Accept, FilePath, PlaintextFilePath;
    WithoutIsPart(disk, u, entries, i, f);
  }

  function DownAtFirst(): Services {
    i => if i == 0 then FailingVault() else PlainVault()
  }

  function BothFiles(u: i32, f: i32): seq<string> {
    [FilePath(u, f).name, PlaintextFilePath(u, f).name]
  }

  lemma BothFilesAreListed(u: i32, f: i32)
    requires f != -1
    ensures IsListing(HidingDisk(u, f), u, BothFiles(u, f))
    ensures HasId(BothFiles(u, f), 0, f) && HasId(BothFiles(u, f), 1, f)
    ensures Path(UserDirectory(u), BothFiles(u, f)[0]) == FilePath(u, f)
  {
    FileNamesOf(u, f);
    FilesAreSeparate(u, f, u, f);
    var a, b, disk := FilePath(u, f), PlaintextFilePath(u, f), HidingDisk(u, f);
    assert disk.Keys == {a, b};
    hide HidingDisk, ParsedId, UserDirectory, FilePath, PlaintextFilePath;
    assert a == Path(UserDirectory(u), a.name) && b == Path(UserDirectory(u), b.name);
    assert forall n :: Path(UserDirectory(u), n) in disk <==> n == a.name || n == b.name;
  }

  lemma SteadyVaultFailsLikeItself(w: Vault)
    ensures FailsLike(w, w)
  {
  }

  lemma FailingVaultFails(w: Vault, disk: Disk, u: i32, f: i32)
    ensures FailsLike(FailingVault(), w)
    ensures Lookup(FailingVault(), disk, u, f) == None
  {
  }

  /** It happens: the service fails at the encrypted entry of a face and works again at the plaintext one, which
      an earlier save had left behind; the scan brings the older template back for good. */
  lemma ScanCanRevertATemplate(u: i32, f: i32)
    returns (services: Services, w: Vault, disk: Disk, entries: seq<string>)
    requires f != -1
    ensures IsListing(disk, u, entries) && forall i :: FailsLike(services(i), w)
    ensures Lookup(w, disk, u, f).Some? && Lookup(w, Left(services, disk, u, entries), u, f).Some?
    ensures Lookup(w, Left(services, disk, u, entries), u, f) != Lookup(w, disk, u, f)
  {
    services, w, disk, entries := DownAtFirst(), PlainVault(), HidingDisk(u, f), BothFiles(u, f);
    HidingDiskAnswers(u, f);
    BothFilesAreListed(u, f);
    FailingVaultFails(w, disk, u, f);
    SteadyVaultFailsLikeItself(w);
    hide PlainVault, FailingVault, HidingDisk, BothFiles, FailsLike, FromEncrypted, FromPlaintext, Answer, FilePath,
      PlaintextFilePath, Without, ParsedId, Left, IsListing, UserDirectory;
    var d := Without(disk, u, entries, 1, f);
    WithoutOneAndNone(disk, u, entries, f);
    SecondAttemptReadsPlaintext(w, disk, d, u, f);
    assert FirstLoad(services, disk, u, entries, 0, f) == None;
    assert FirstLoad(services, disk, u, entries, 1, f) == None;
    assert FirstLoad(services, disk, u, entries, 2, f) == Lookup(w, d, u, f);
    ReturnedFaceKeepsItsAnswerIff(services, w, disk, u, entries, f);
  }

  lemma WithoutOneAndNone(disk: Disk, u: i32, entries: seq<string>, f: i32)
    requires HasId(entries, 0, f)
    ensures Without(disk, u, entries, 0, f) == disk
    ensures Without(disk, u, entries, 1, f) == disk - {Path(UserDirectory(u), entries[0])}
  {
    hide ParsedId, UserDirectory;
  }

  lemma SecondAttemptReadsPlaintext(w: Vault, disk: Disk, d: Disk, u: i32, f: i32)
    requires d == disk - {FilePath(u, f)} && FilePath(u, f) != PlaintextFilePath(u, f)
    ensures Lookup(w, d, u, f) == FromPlaintext(w, disk, u, f)
  {
  }

  lemma WithoutIsPart(disk: Disk, u: i32, entries: seq<string>, n: nat, f: i32)
    requires n <= |entries|
    ensures forall p :: p in Without(disk, u, entries, n, f) ==> p in disk && Without(disk, u, entries, n, f)[p] == disk[p]
  {
  }

  // ---------------------------------------------------------------- a key service that stays as it is

  lemma {:induction false} SteadyFirstLoad(services: Services, v: Vault, disk: Disk, u: i32, entries: seq<string>, n: nat, f: i32)
    requires n <= |entries| && forall i :: services(i) == v
    ensures FirstLoad(services, disk, u, entries, n, f)
         == if exists j :: j < n && HasId(entries, j, f) then Lookup(v, disk, u, f) else None
  {
    hide Lookup, ParsedId, UserDirectory;
    if n > 0 {
      SteadyFirstLoad(services, v, disk, u, entries, n - 1, f);
      if HasId(entries, n - 1, f) && FirstLoad(services, disk, u, entries, n - 1, f).None? {
        var gone := set j | 0 <= j < n - 1 && HasId(entries, j, f) :: Path(UserDirectory(u), entries[j]);
        if exists j :: j < n - 1 && HasId(entries, j, f) {
          RemovingDoomedKeepsAnswers(v, disk, u, gone, u, f);
        } else {
          assert disk - gone == disk;
        }
      }
    }
  }

  /** With a key service that answers alike throughout, the order of the entries does not matter: the scan
      returns what `ScanResult` says and removes the doomed entries. */
  lemma SteadyScanIgnoresOrder(services: Services, v: Vault, disk: Disk, u: i32, entries: seq<string>)
    requires IsListing(disk, u, entries) && forall i :: services(i) == v
    ensures Found(services, disk, u, entries) == ScanResult(v, disk, u)
    ensures Left(services, disk, u, entries) == Cleaned(v, disk, u)
  {
    hide Lookup, ParsedId, UserDirectory, FirstLoad;
    var found, result := Found(services, disk, u, entries), ScanResult(v, disk, u);
    forall f: i32
      ensures f in found <==> f in result
      ensures f in result ==> found[f] == result[f]
    {
      SteadyFirstLoad(services, v, disk, u, entries, |entries|, f);
      if f in EntryIds(entries) {
        var name :| name in entries && ParsedId(name) == Some(f);
        var j :| 0 <= j < |entries| && entries[j] == name;
        assert HasId(entries, j, f);
        assert Path(UserDirectory(u), name) in disk;
      }
      if f in ScannedIds(disk, u) {
        var p :| p in disk && p.dir == UserDirectory(u) && ParsedId(p.name) == Some(f);
        assert Path(UserDirectory(u), p.name) == p;
        assert p.name in entries;
      }
    }
    forall p | p in disk
      ensures p in Removed(services, disk, u, entries, |entries|) <==> IsDoomed(v, disk, u, p)
    {
      if p.dir == UserDirectory(u) && ParsedId(p.name).Some? {
        var f := ParsedId(p.name).value;
        assert Path(UserDirectory(u), p.name) == p;
        var j :| 0 <= j < |entries| && entries[j] == p.name;
        assert HasId(entries, j, f);
        SteadyFirstLoad(services, v, disk, u, entries, j + 1, f);
        assert IsRemoved(services, disk, u, entries, j) <==> IsDoomed(v, disk, u, p);
      }
    }
  }
}
