/** What the template files on disk mean. `Lookup` is the answer a load gives for a (user, face)
    pair; the other functions give the disk after each storage operation. */
module TemplateDisk {
  import opened Wrappers
  import opened Bytes
  import opened Strings
  import opened TemplateSerializer
  import opened FileNames

  type Disk = map<Path, seq<byte>>

  /** The keyed operations: the template MAC, and decryption of a payload for a user
      (empty on failure). */
  datatype Vault = Vault(sign: Signer, open: (i32, seq<byte>) -> seq<byte>)

  /** The bytes of a file; an absent file reads like an empty one. */
  function Read(disk: Disk, p: Path): seq<byte> {
    if p in disk then disk[p] else []
  }

  function Accept(v: Vault, u: i32, f: i32, data: seq<byte>): Option<FaceTemplate> {
    var t := Parse(v.sign, data);
    if t.Some? && t.value.userId == u && t.value.faceId == f then t else None
  }

  function FromEncrypted(v: Vault, disk: Disk, u: i32, f: i32): Option<FaceTemplate> {
    var payload := Read(disk, FilePath(u, f));
    if payload == [] then None
    else
      var data := v.open(u, payload);
      if data == [] then None else Accept(v, u, f, data)
  }

  function FromPlaintext(v: Vault, disk: Disk, u: i32, f: i32): Option<FaceTemplate> {
    var data := Read(disk, PlaintextFilePath(u, f));
    if data == [] then None else Accept(v, u, f, data)
  }

  function Lookup(v: Vault, disk: Disk, u: i32, f: i32): Option<FaceTemplate> {
    var t := FromEncrypted(v, disk, u, f);
    if t.Some? then t else FromPlaintext(v, disk, u, f)
  }

  // ---------------------------------------------------------------- saving

  /** What encryption may return for `t`: nothing, or a payload that decrypts to its image. */
  predicate IsSealOf(v: Vault, t: FaceTemplate, sealed: seq<byte>) {
    sealed == [] || v.open(t.userId, sealed) == Serialized(v.sign, t)
  }

  function FinalPath(t: FaceTemplate, sealed: seq<byte>): Path {
    if sealed == [] then PlaintextFilePath(t.userId, t.faceId) else FilePath(t.userId, t.faceId)
  }

  function StalePath(t: FaceTemplate, sealed: seq<byte>): Path {
    if sealed == [] then FilePath(t.userId, t.faceId) else PlaintextFilePath(t.userId, t.faceId)
  }

  function Contents(v: Vault, t: FaceTemplate, sealed: seq<byte>): seq<byte> {
    if sealed == [] then Serialized(v.sign, t) else sealed
  }

  /** The temporary file holds `junk`, which a crash may leave as any part of the contents. */
  function TempWritten(disk: Disk, t: FaceTemplate, sealed: seq<byte>, junk: seq<byte>): Disk {
    disk[TempPath(FinalPath(t, sealed)) := junk]
  }

  function TempUnlinked(disk: Disk, t: FaceTemplate, sealed: seq<byte>): Disk {
    disk - {TempPath(FinalPath(t, sealed))}
  }

  /** The temporary file has replaced the final one; the stale variant is still there. */
  function Renamed(v: Vault, disk: Disk, t: FaceTemplate, sealed: seq<byte>): Disk {
    TempUnlinked(disk, t, sealed)[FinalPath(t, sealed) := Contents(v, t, sealed)]
  }

  function Saved(v: Vault, disk: Disk, t: FaceTemplate, sealed: seq<byte>): Disk {
    Renamed(v, disk, t, sealed) - {StalePath(t, sealed)}
  }

  // ---------------------------------------------------------------- deleting

  predicate HasFaces(disk: Disk, u: i32) {
    exists p :: p in disk && p.dir == UserDirectory(u) && IsTemplateName(p.name)
  }

  function UserRemoved(disk: Disk, u: i32): Disk {
    map p | p in disk && p.dir != UserDirectory(u) :: disk[p]
  }

  function Deleted(disk: Disk, u: i32, f: i32): Disk {
    var rest := disk - {FilePath(u, f), PlaintextFilePath(u, f)};
    if HasFaces(rest, u) then rest else UserRemoved(rest, u)
  }

  // ---------------------------------------------------------------- scanning

  /** The ids that some entry of the user's directory parses to. */
  function ScannedIds(disk: Disk, u: i32): set<i32> {
    set p | p in disk && p.dir == UserDirectory(u) && ParsedId(p.name).Some? :: ParsedId(p.name).value
  }

  /** What the scan returns, whatever the order of the entries. */
  function ScanResult(v: Vault, disk: Disk, u: i32): map<i32, FaceTemplate> {
    map f | f in ScannedIds(disk, u) && Lookup(v, disk, u, f).Some? :: Lookup(v, disk, u, f).value
  }

  predicate IsDoomed(v: Vault, disk: Disk, u: i32, p: Path) {
    p.dir == UserDirectory(u) && ParsedId(p.name).Some? && Lookup(v, disk, u, ParsedId(p.name).value).None?
  }

  /** The disk after the scan has removed the entries whose id does not load. */
  function Cleaned(v: Vault, disk: Disk, u: i32): Disk {
    disk - set p | p in disk && IsDoomed(v, disk, u, p)
  }

  // ---------------------------------------------------------------- frames

  /** A load reads two files and nothing else. */
  lemma LookupReadsTwoFiles(v: Vault, d: Disk, e: Disk, u: i32, f: i32)
    requires Read(d, FilePath(u, f)) == Read(e, FilePath(u, f))
    requires Read(d, PlaintextFilePath(u, f)) == Read(e, PlaintextFilePath(u, f))
    ensures FromEncrypted(v, d, u, f) == FromEncrypted(v, e, u, f)
    ensures Lookup(v, d, u, f) == Lookup(v, e, u, f)
  {
  }

  /** The files of one (user, face) pair, and their temporaries, are not files of another pair,
      and the two variants and their temporaries are all different. */
  lemma FilesAreSeparate(u: i32, f: i32, w: i32, g: i32)
    ensures FilePath(u, f) == FilePath(w, g) <==> u == w && f == g
    ensures PlaintextFilePath(u, f) == PlaintextFilePath(w, g) <==> u == w && f == g
    ensures FilePath(u, f) != PlaintextFilePath(w, g) && PlaintextFilePath(u, f) != FilePath(w, g)
    ensures TempPath(FilePath(u, f)) !in {FilePath(w, g), PlaintextFilePath(w, g)}
    ensures TempPath(PlaintextFilePath(u, f)) !in {FilePath(w, g), PlaintextFilePath(w, g)}
  {
    TempNames(f);
    PathsAreDistinct(u, f, ENCRYPTED, w, g, ENCRYPTED);
    PathsAreDistinct(u, f, PLAINTEXT, w, g, PLAINTEXT);
    PathsAreDistinct(u, f, ENCRYPTED, w, g, PLAINTEXT);
    PathsAreDistinct(u, f, PLAINTEXT, w, g, ENCRYPTED);
    PathsAreDistinct(u, f, ENCRYPTED + ".tmp", w, g, ENCRYPTED);
    PathsAreDistinct(u, f, ENCRYPTED + ".tmp", w, g, PLAINTEXT);
    PathsAreDistinct(u, f, PLAINTEXT + ".tmp", w, g, ENCRYPTED);
    PathsAreDistinct(u, f, PLAINTEXT + ".tmp", w, g, PLAINTEXT);
  }

  lemma TempNames(f: i32)
    ensures FaceName(f, ENCRYPTED) + ".tmp" == FaceName(f, ENCRYPTED + ".tmp")
    ensures FaceName(f, PLAINTEXT) + ".tmp" == FaceName(f, PLAINTEXT + ".tmp")
  {
  }

  // ---------------------------------------------------------------- what saving does

  /** The temporary file never matters to a load, whatever a crash left in it. */
  lemma TempIsInvisible(v: Vault, disk: Disk, t: FaceTemplate, sealed: seq<byte>, junk: seq<byte>, u: i32, f: i32)
    ensures Lookup(v, TempWritten(disk, t, sealed, junk), u, f) == Lookup(v, disk, u, f)
    ensures Lookup(v, TempUnlinked(disk, t, sealed), u, f) == Lookup(v, disk, u, f)
  {
    FilesAreSeparate(t.userId, t.faceId, u, f);
    LookupReadsTwoFiles(v, TempWritten(disk, t, sealed, junk), disk, u, f);
    LookupReadsTwoFiles(v, TempUnlinked(disk, t, sealed), disk, u, f);
  }

  lemma SavingLeavesOthersAlone(v: Vault, disk: Disk, t: FaceTemplate, sealed: seq<byte>, u: i32, f: i32)
    requires u != t.userId || f != t.faceId
    ensures Lookup(v, Renamed(v, disk, t, sealed), u, f) == Lookup(v, disk, u, f)
    ensures Lookup(v, Saved(v, disk, t, sealed), u, f) == Lookup(v, disk, u, f)
  {
    FilesAreSeparate(t.userId, t.faceId, u, f);
    LookupReadsTwoFiles(v, Renamed(v, disk, t, sealed), disk, u, f);
    LookupReadsTwoFiles(v, Saved(v, disk, t, sealed), disk, u, f);
  }

  /** What a load is to answer once `t` has been saved: a template of another version is written but
      does not load. */
  function Answer(v: Vault, t: FaceTemplate): Option<FaceTemplate> {
    if t.version == CURRENT_VERSION then Some(Stored(v.sign, t)) else None
  }

  lemma AcceptsOwnImage(v: Vault, t: FaceTemplate)
    requires Serialized(v.sign, t) != []
    ensures Accept(v, t.userId, t.faceId, Serialized(v.sign, t)) == Answer(v, t)
  {
    ParseOfSerialized(v.sign, t);
  }

  /** After the rename the new template is what loads, except that a readable encrypted file still
      hides a plaintext one, and an encrypted file of another version still leaves one in view. */
  lemma LookupAfterRename(v: Vault, disk: Disk, t: FaceTemplate, sealed: seq<byte>)
    requires Serialized(v.sign, t) != [] && IsSealOf(v, t, sealed)
    ensures Lookup(v, Renamed(v, disk, t, sealed), t.userId, t.faceId)
         == if sealed == [] && FromEncrypted(v, disk, t.userId, t.faceId).Some?
            then Lookup(v, disk, t.userId, t.faceId)
            else if sealed != [] && t.version != CURRENT_VERSION
            then FromPlaintext(v, disk, t.userId, t.faceId)
            else Answer(v, t)
  {
    FilesAreSeparate(t.userId, t.faceId, t.userId, t.faceId);
    AcceptsOwnImage(v, t);
    var d, path := Renamed(v, disk, t, sealed), FilePath(t.userId, t.faceId);
    if sealed == [] {
      assert Read(d, path) == Read(disk, path);
      assert Read(d, PlaintextFilePath(t.userId, t.faceId)) == Serialized(v.sign, t);
    } else {
      assert Read(d, path) == sealed;
      assert Read(d, PlaintextFilePath(t.userId, t.faceId)) == Read(disk, PlaintextFilePath(t.userId, t.faceId));
    }
  }

  /** A completed save leaves exactly one of the two files, with the contents written. */
  lemma FilesAfterSave(v: Vault, disk: Disk, t: FaceTemplate, sealed: seq<byte>)
    ensures var d, a, b := Saved(v, disk, t, sealed), FilePath(t.userId, t.faceId), PlaintextFilePath(t.userId, t.faceId);
            && (sealed == [] ==> a !in d && b in d && d[b] == Serialized(v.sign, t))
            && (sealed != [] ==> b !in d && a in d && d[a] == sealed)
  {
    FilesAreSeparate(t.userId, t.faceId, t.userId, t.faceId);
    hide FilePath, PlaintextFilePath, TempPath, Serialized;
  }

  /** A completed save replaces the answer and leaves exactly one of the two files. A template of
      another version is written but does not load, so saving it forgets the old one. */
  lemma LookupAfterSave(v: Vault, disk: Disk, t: FaceTemplate, sealed: seq<byte>)
    requires Serialized(v.sign, t) != [] && IsSealOf(v, t, sealed)
    ensures var d := Saved(v, disk, t, sealed);
            && Lookup(v, d, t.userId, t.faceId) == Answer(v, t)
            && (FilePath(t.userId, t.faceId) in d <==> sealed != [])
            && (PlaintextFilePath(t.userId, t.faceId) in d <==> sealed == [])
  {
    FilesAfterSave(v, disk, t, sealed);
    AcceptsOwnImage(v, t);
    hide FilePath, PlaintextFilePath, Saved, Accept, Answer, Serialized;
  }

  /** `d` answers like `disk`, or like `disk` with `t` saved. */
  ghost predicate IsOldOrNew(v: Vault, disk: Disk, t: FaceTemplate, d: Disk) {
    && (forall u: i32, f: i32 :: u != t.userId || f != t.faceId ==> Lookup(v, d, u, f) == Lookup(v, disk, u, f))
    && Lookup(v, d, t.userId, t.faceId) in {Lookup(v, disk, t.userId, t.faceId), Answer(v, t)}
  }

  /** The rename is not atomic for a load only when an encrypted template of another version uncovers
      an old plaintext file, different from what loaded before. */
  predicate RenameIsAtomic(v: Vault, disk: Disk, t: FaceTemplate, sealed: seq<byte>) {
    || t.version == CURRENT_VERSION
    || sealed == []
    || FromPlaintext(v, disk, t.userId, t.faceId) in {None, Lookup(v, disk, t.userId, t.faceId)}
  }

  lemma TempStepsAreAtomic(v: Vault, disk: Disk, t: FaceTemplate, sealed: seq<byte>, junk: seq<byte>)
    ensures IsOldOrNew(v, disk, t, TempWritten(disk, t, sealed, junk))
    ensures IsOldOrNew(v, disk, t, TempUnlinked(disk, t, sealed))
  {
    forall u: i32, f: i32
      ensures Lookup(v, TempWritten(disk, t, sealed, junk), u, f) == Lookup(v, disk, u, f)
      ensures Lookup(v, TempUnlinked(disk, t, sealed), u, f) == Lookup(v, disk, u, f)
    {
      TempIsInvisible(v, disk, t, sealed, junk, u, f);
    }
  }

  lemma FinalStepsAreAtomic(v: Vault, disk: Disk, t: FaceTemplate, sealed: seq<byte>)
    requires Serialized(v.sign, t) != [] && IsSealOf(v, t, sealed)
    ensures IsOldOrNew(v, disk, t, Renamed(v, disk, t, sealed)) <==> RenameIsAtomic(v, disk, t, sealed)
    ensures IsOldOrNew(v, disk, t, Saved(v, disk, t, sealed))
  {
    forall u: i32, f: i32 | u != t.userId || f != t.faceId
      ensures Lookup(v, Renamed(v, disk, t, sealed), u, f) == Lookup(v, disk, u, f)
      ensures Lookup(v, Saved(v, disk, t, sealed), u, f) == Lookup(v, disk, u, f)
    {
      SavingLeavesOthersAlone(v, disk, t, sealed, u, f);
    }
    LookupAfterRename(v, disk, t, sealed);
    LookupAfterSave(v, disk, t, sealed);
  }

  function TempHolding(disk: Disk, final: Path, junk: seq<byte>): Disk {
    disk[TempPath(final) := junk]
  }

  /** `d` is the disk at some point of writing `data` to `final` through its temporary file and then
      removing `stale`: before the first step, after the last, or in between. */
  ghost predicate IsWriteStage(disk: Disk, final: Path, stale: Path, data: seq<byte>, d: Disk) {
    || d == disk
    || (exists junk :: d == TempHolding(disk, final, junk))
    || d == disk - {TempPath(final)}
    || d == (disk - {TempPath(final)})[final := data]
    || d == (disk - {TempPath(final)})[final := data] - {stale}
  }

  ghost predicate IsSaveStage(v: Vault, disk: Disk, t: FaceTemplate, sealed: seq<byte>, d: Disk) {
    IsWriteStage(disk, FinalPath(t, sealed), StalePath(t, sealed), Contents(v, t, sealed), d)
  }

  lemma EverySaveStageIsOldOrNew(v: Vault, disk: Disk, t: FaceTemplate, sealed: seq<byte>, d: Disk)
    requires Serialized(v.sign, t) != [] && IsSealOf(v, t, sealed)
    requires IsSaveStage(v, disk, t, sealed, d) && RenameIsAtomic(v, disk, t, sealed)
    ensures IsOldOrNew(v, disk, t, d)
  {
    FinalStepsAreAtomic(v, disk, t, sealed);
    TempStepsAreAtomic(v, disk, t, sealed, []);
    if junk :| d == TempHolding(disk, FinalPath(t, sealed), junk) {
      TempStepsAreAtomic(v, disk, t, sealed, junk);
    }
  }

  /** Crash atomicity: whichever file-system step a save stops after, with encryption or without,
      every load answers as before or with the new template. It holds for every template of the
      current version, and for another version exactly unless the rename uncovers an old file. */
  lemma SaveIsCrashAtomicIff(v: Vault, disk: Disk, t: FaceTemplate, sealed: seq<byte>)
    requires Serialized(v.sign, t) != [] && IsSealOf(v, t, sealed)
    ensures (forall d: Disk :: IsSaveStage(v, disk, t, sealed, d) ==> IsOldOrNew(v, disk, t, d))
       <==> RenameIsAtomic(v, disk, t, sealed)
  {
    if RenameIsAtomic(v, disk, t, sealed) {
      forall d: Disk | IsSaveStage(v, disk, t, sealed, d)
        ensures IsOldOrNew(v, disk, t, d)
      {
        EverySaveStageIsOldOrNew(v, disk, t, sealed, d);
      }
    } else {
      FinalStepsAreAtomic(v, disk, t, sealed);
      assert IsSaveStage(v, disk, t, sealed, Renamed(v, disk, t, sealed));
    }
  }

  /** When the stale file cannot be removed, `saveTemplate` still reports success. The save has then
      taken effect if and only if it went to the plaintext file and no other template is readable in
      the encrypted one, or it went to the encrypted file and loads from it or nothing else does. */
  lemma SaveWithoutCleanupTakesEffectIff(v: Vault, disk: Disk, t: FaceTemplate, sealed: seq<byte>)
    requires Serialized(v.sign, t) != [] && IsSealOf(v, t, sealed)
    ensures Lookup(v, Renamed(v, disk, t, sealed), t.userId, t.faceId) == Answer(v, t)
       <==> if sealed == [] then FromEncrypted(v, disk, t.userId, t.faceId) in {None, Answer(v, t)}
            else t.version == CURRENT_VERSION || FromPlaintext(v, disk, t.userId, t.faceId) == None
  {
    LookupAfterRename(v, disk, t, sealed);
  }

  /** A vault with a fixed MAC that stores payloads as they are. */
  function PlainVault(): Vault {
    Vault((data: seq<byte>) => seq<byte>(MAC_SIZE, _ => 0), (u: i32, payload: seq<byte>) => payload)
  }

  function OneByteTemplate(u: i32, f: i32, b: byte): FaceTemplate {
    FaceTemplate(CURRENT_VERSION, f, u, [b], 0, [])
  }

  lemma PlainVaultSeals(t: FaceTemplate)
    ensures Serialized(PlainVault().sign, t) != []
    ensures IsSealOf(PlainVault(), t, Serialized(PlainVault().sign, t))
  {
  }

  lemma OneByteIsStored(v: Vault, u: i32, f: i32, b: byte)
    ensures Answer(v, OneByteTemplate(u, f, b)).Some? && Answer(v, OneByteTemplate(u, f, b)).value.templateData == [b]
  {
    TruncationIsHarmlessIffSmall([b]);
  }

  /** It happens: a template saved in plaintext does not load while the encrypted file of the one
      before it stays. */
  lemma StaleFileCanHideSave(u: i32, f: i32) returns (v: Vault, disk: Disk, t: FaceTemplate)
    ensures Serialized(v.sign, t) != [] && t.version == CURRENT_VERSION && t.userId == u && t.faceId == f
    ensures var found := Lookup(v, Renamed(v, disk, t, []), t.userId, t.faceId);
            found.Some? && found.value.templateData != t.templateData
  {
    v, t := PlainVault(), OneByteTemplate(u, f, 2);
    var first := OneByteTemplate(u, f, 1);
    var sealed := Serialized(v.sign, first);
    PlainVaultSeals(first);
    PlainVaultSeals(t);
    OneByteIsStored(v, u, f, 1);
    hide PlainVault, Serialized, Saved, Renamed, FilePath, PlaintextFilePath, Answer, Accept;
    disk := Saved(v, map[], first, sealed);
    LookupAfterSave(v, map[], first, sealed);
    LookupAfterRename(v, disk, t, []);
    assert FromPlaintext(v, disk, u, f) == None;
  }

  /** A disk on which a face has an encrypted file, and an older plaintext file behind it. */
  function HidingDisk(u: i32, f: i32): Disk {
    map[FilePath(u, f) := Serialized(PlainVault().sign, OneByteTemplate(u, f, 1)),
        PlaintextFilePath(u, f) := Serialized(PlainVault().sign, OneByteTemplate(u, f, 2))]
  }

  lemma ReadsBackEncrypted(v: Vault, disk: Disk, t: FaceTemplate)
    requires Serialized(v.sign, t) != [] && FilePath(t.userId, t.faceId) in disk
    requires var payload := disk[FilePath(t.userId, t.faceId)]; payload != [] && v.open(t.userId, payload) == Serialized(v.sign, t)
    ensures FromEncrypted(v, disk, t.userId, t.faceId) == Answer(v, t)
  {
    AcceptsOwnImage(v, t);
    hide Serialized, FilePath, Answer, Accept;
  }

  lemma ReadsBackPlaintext(v: Vault, disk: Disk, t: FaceTemplate)
    requires Serialized(v.sign, t) != [] && PlaintextFilePath(t.userId, t.faceId) in disk
    requires disk[PlaintextFilePath(t.userId, t.faceId)] == Serialized(v.sign, t)
    ensures FromPlaintext(v, disk, t.userId, t.faceId) == Answer(v, t)
  {
    AcceptsOwnImage(v, t);
    hide Serialized, PlaintextFilePath, Answer, Accept;
  }

  lemma HidingDiskAnswers(u: i32, f: i32)
    ensures FilePath(u, f) != PlaintextFilePath(u, f)
    ensures FromEncrypted(PlainVault(), HidingDisk(u, f), u, f) == Answer(PlainVault(), OneByteTemplate(u, f, 1))
    ensures FromPlaintext(PlainVault(), HidingDisk(u, f), u, f) == Answer(PlainVault(), OneByteTemplate(u, f, 2))
    ensures Answer(PlainVault(), OneByteTemplate(u, f, 1)).Some? && Answer(PlainVault(), OneByteTemplate(u, f, 2)).Some?
    ensures Answer(PlainVault(), OneByteTemplate(u, f, 1)) != Answer(PlainVault(), OneByteTemplate(u, f, 2))
  {
    var v := PlainVault();
    FilesAreSeparate(u, f, u, f);
    PlainVaultSeals(OneByteTemplate(u, f, 1));
    PlainVaultSeals(OneByteTemplate(u, f, 2));
    OneByteIsStored(v, u, f, 1);
    OneByteIsStored(v, u, f, 2);
    PlainVaultOpens(u, Serialized(v.sign, OneByteTemplate(u, f, 1)));
    hide PlainVault, Serialized, FilePath, PlaintextFilePath, Answer, FromEncrypted, FromPlaintext;
    ReadsBackEncrypted(v, HidingDisk(u, f), OneByteTemplate(u, f, 1));
    ReadsBackPlaintext(v, HidingDisk(u, f), OneByteTemplate(u, f, 2));
  }

  lemma PlainVaultOpens(u: i32, payload: seq<byte>)
    ensures PlainVault().open(u, payload) == payload
  {
  }

  /** It happens: a crash after the rename, while a template of another version is saved, uncovers the older
      plaintext template. */
  lemma CrashCanUncoverAnOldTemplate(u: i32, f: i32)
    returns (v: Vault, disk: Disk, t: FaceTemplate, sealed: seq<byte>)
    ensures Serialized(v.sign, t) != [] && IsSealOf(v, t, sealed)
    ensures IsSaveStage(v, disk, t, sealed, Renamed(v, disk, t, sealed))
    ensures !IsOldOrNew(v, disk, t, Renamed(v, disk, t, sealed))
  {
    v, disk, t := PlainVault(), HidingDisk(u, f), OneByteTemplate(u, f, 3).(version := 2);
    sealed := Serialized(v.sign, t);
    HidingDiskAnswers(u, f);
    PlainVaultSeals(t);
    hide PlainVault, HidingDisk, Serialized, FilePath, PlaintextFilePath, Answer, FromEncrypted, FromPlaintext, IsOldOrNew;
    FinalStepsAreAtomic(v, disk, t, sealed);
  }

  // ---------------------------------------------------------------- what deleting does

  lemma FilesAreTemplates(u: i32, f: i32)
    ensures IsTemplateName(FilePath(u, f).name) && IsTemplateName(PlaintextFilePath(u, f).name)
  {
    assert OccursAt(PLAINTEXT, |PLAINTEXT| - 4, ".dat");
    assert OccursAt(ENCRYPTED, 0, ".dat");
    FaceNameParses(f, ENCRYPTED, 0);
    FaceNameParses(f, PLAINTEXT, |PLAINTEXT| - 4);
  }

  /** Removing a user forgets that user's templates and nothing else. */
  lemma LookupAfterRemoveUser(v: Vault, disk: Disk, w: i32, u: i32, f: i32)
    ensures Lookup(v, UserRemoved(disk, w), u, f) == if u == w then None else Lookup(v, disk, u, f)
  {
    UserDirectoryInjective(u, w, "", "");
    assert UserDirectory(u) + "" == UserDirectory(u) && UserDirectory(w) + "" == UserDirectory(w);
    if u != w {
      LookupReadsTwoFiles(v, UserRemoved(disk, w), disk, u, f);
    }
  }

  /** Deleting forgets its own template and nothing else, also when it wipes the directory. */
  lemma LookupAfterDelete(v: Vault, disk: Disk, w: i32, g: i32, u: i32, f: i32)
    ensures Lookup(v, Deleted(disk, w, g), u, f)
         == if u == w && f == g then None else Lookup(v, disk, u, f)
  {
    var rest := disk - {FilePath(w, g), PlaintextFilePath(w, g)};
    FilesAreSeparate(u, f, w, g);
    if u != w || f != g {
      LookupReadsTwoFiles(v, rest, disk, u, f);
    }
    if !HasFaces(rest, w) {
      LookupAfterRemoveUser(v, rest, w, u, f);
      FilesAreTemplates(u, f);
      assert FilePath(u, f).dir == UserDirectory(u);
    }
  }

  // ---------------------------------------------------------------- what scanning does

  /** Removing doomed entries never changes an answer: both files of a loadable id stay, and an id
      that does not load does not start to. */
  lemma RemovingDoomedKeepsAnswers(v: Vault, disk: Disk, w: i32, gone: set<Path>, u: i32, f: i32)
    requires forall p :: p in gone ==> IsDoomed(v, disk, w, p)
    ensures Lookup(v, disk - gone, u, f) == Lookup(v, disk, u, f)
  {
    var a, b := FilePath(u, f), PlaintextFilePath(u, f);
    UserDirectoryInjective(u, w, "", "");
    assert UserDirectory(u) + "" == UserDirectory(u) && UserDirectory(w) + "" == UserDirectory(w);
    ScanRecoversName(f, false);
    ScanRecoversName(f, true);
    if u != w || f == -1 || Lookup(v, disk, u, f).Some? {
      assert a !in gone && b !in gone;
      LookupReadsTwoFiles(v, disk - gone, disk, u, f);
    }
  }

  /** The scan decides with the key service as it is during the scan (`v`), a later load reads with it
      as it is then (`w`). The scan forgets exactly the faces that did not load for it, and changes
      no other answer. */
  lemma CleaningForgetsExactlyWhatDidNotLoad(v: Vault, w: Vault, disk: Disk, x: i32, u: i32, f: i32)
    ensures Lookup(w, Cleaned(v, disk, x), u, f)
         == if u == x && f != -1 && Lookup(v, disk, u, f).None? then None else Lookup(w, disk, u, f)
  {
    var a, b, d := FilePath(u, f), PlaintextFilePath(u, f), Cleaned(v, disk, x);
    UserDirectoryInjective(u, x, "", "");
    assert UserDirectory(u) + "" == UserDirectory(u) && UserDirectory(x) + "" == UserDirectory(x);
    ScanRecoversName(f, false);
    ScanRecoversName(f, true);
    if u == x && f != -1 && Lookup(v, disk, u, f).None? {
      assert a !in d && b !in d;
    } else {
      assert !IsDoomed(v, disk, x, a) && !IsDoomed(v, disk, x, b);
      LookupReadsTwoFiles(w, d, disk, u, f);
    }
  }

  /** A template survives a scan exactly when the scan could load it, or skips its id. */
  lemma TemplateSurvivesScanIff(v: Vault, w: Vault, disk: Disk, u: i32, f: i32)
    requires Lookup(w, disk, u, f).Some?
    ensures Lookup(w, Cleaned(v, disk, u), u, f) == Lookup(w, disk, u, f) <==> f == -1 || Lookup(v, disk, u, f).Some?
  {
    CleaningForgetsExactlyWhatDidNotLoad(v, w, disk, u, u, f);
  }

  /** The key service `v` behaves like `w` or fails. */
  ghost predicate FailsLike(v: Vault, w: Vault) {
    && (forall data :: v.sign(data) in {[], w.sign(data)})
    && (forall u, payload :: v.open(u, payload) in {[], w.open(u, payload)})
  }

  /** What a service that sometimes fails reads is what a working one reads from the same kind of file. */
  lemma FailingServiceReadsTheSame(v: Vault, w: Vault, disk: Disk, u: i32, f: i32)
    requires FailsLike(v, w)
    ensures FromEncrypted(v, disk, u, f).Some? ==> FromEncrypted(w, disk, u, f) == FromEncrypted(v, disk, u, f)
    ensures FromPlaintext(v, disk, u, f).Some? ==> FromPlaintext(w, disk, u, f) == FromPlaintext(v, disk, u, f)
    ensures Lookup(v, disk, u, f).Some? ==> Lookup(w, disk, u, f).Some?
  {
    var payload := Read(disk, FilePath(u, f));
    if FromEncrypted(v, disk, u, f).Some? {
      assert v.open(u, payload) == w.open(u, payload);
      FailingSignerAcceptsLess(v.sign, w.sign, w.open(u, payload));
    }
    FailingSignerAcceptsLess(v.sign, w.sign, Read(disk, PlaintextFilePath(u, f)));
  }

  lemma FailingSignerAcceptsLess(s: Signer, t: Signer, data: seq<byte>)
    requires forall d :: s(d) in {[], t(d)}
    ensures Parse(s, data).Some? ==> Parse(t, data) == Parse(s, data)
  {
  }

  function FailingVault(): Vault {
    Vault((data: seq<byte>) => [], (u: i32, payload: seq<byte>) => [])
  }

  /** It happens: a scan while the key service is down removes a good template for ever. */
  lemma ScanCanLoseATemplate(u: i32, f: i32) returns (v: Vault, w: Vault, disk: Disk, t: FaceTemplate)
    requires f != -1
    ensures t.userId == u && t.faceId == f
    ensures FailsLike(v, w) && Lookup(w, disk, t.userId, t.faceId).Some?
    ensures Lookup(w, Cleaned(v, disk, t.userId), t.userId, t.faceId) == None
  {
    v, w, t := FailingVault(), PlainVault(), OneByteTemplate(u, f, 1);
    disk := Saved(w, map[], t, []);
    LookupAfterSave(w, map[], t, []);
    CleaningForgetsExactlyWhatDidNotLoad(v, w, disk, t.userId, t.userId, t.faceId);
  }

  /** With a key service that answers during the scan as it does later, no answer changes. */
  lemma CleaningKeepsAnswers(v: Vault, disk: Disk, w: i32, u: i32, f: i32)
    ensures Lookup(v, Cleaned(v, disk, w), u, f) == Lookup(v, disk, u, f)
  {
    CleaningForgetsExactlyWhatDidNotLoad(v, v, disk, w, u, f);
  }

  /** The scan finds exactly the loadable ids other than the sentinel -1. */
  lemma ScanFindsExactlyTheLoadable(v: Vault, disk: Disk, u: i32, f: i32)
    ensures f in ScanResult(v, disk, u) <==> f != -1 && Lookup(v, disk, u, f).Some?
    ensures f in ScanResult(v, disk, u) ==>
              ScanResult(v, disk, u)[f] == Lookup(v, disk, u, f).value
              && ScanResult(v, disk, u)[f].faceId == f && ScanResult(v, disk, u)[f].userId == u
  {
    ScanRecoversName(f, false);
    ScanRecoversName(f, true);
    var a, b := FilePath(u, f), PlaintextFilePath(u, f);
    if f != -1 && Lookup(v, disk, u, f).Some? {
      assert a in disk || b in disk;
      assert a in disk ==> ParsedId(a.name).value in ScannedIds(disk, u);
      assert b in disk ==> ParsedId(b.name).value in ScannedIds(disk, u);
    }
  }

  /** A second scan gives the same templates and removes nothing. */
  lemma ScanIsIdempotent(v: Vault, disk: Disk, u: i32)
    ensures ScanResult(v, Cleaned(v, disk, u), u) == ScanResult(v, disk, u)
    ensures Cleaned(v, Cleaned(v, disk, u), u) == Cleaned(v, disk, u)
  {
    SecondScanFindsTheSame(v, disk, u);
    SecondScanRemovesNothing(v, disk, u);
  }

  lemma SecondScanFindsTheSame(v: Vault, disk: Disk, u: i32)
    ensures ScanResult(v, Cleaned(v, disk, u), u) == ScanResult(v, disk, u)
  {
    hide Lookup, ScanResult, Cleaned;
    var d := Cleaned(v, disk, u);
    var r, r' := ScanResult(v, disk, u), ScanResult(v, d, u);
    forall f: i32
      ensures f in r' <==> f in r
      ensures f in r ==> r'[f] == r[f]
    {
      CleaningKeepsAnswers(v, disk, u, u, f);
      ScanFindsExactlyTheLoadable(v, disk, u, f);
      ScanFindsExactlyTheLoadable(v, d, u, f);
    }
  }

  lemma SecondScanRemovesNothing(v: Vault, disk: Disk, u: i32)
    ensures Cleaned(v, Cleaned(v, disk, u), u) == Cleaned(v, disk, u)
  {
    var d := Cleaned(v, disk, u);
    forall p | p in d && p.dir == UserDirectory(u) && ParsedId(p.name).Some?
      ensures !IsDoomed(v, d, u, p)
    {
      CleaningKeepsAnswers(v, disk, u, u, ParsedId(p.name).value);
    }
  }
}
