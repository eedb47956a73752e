/** The stub engine: its cache of enrolled faces stays equal to what is on disk. */
module FaceEngineStub {
  import opened Wrappers
  import opened Bytes
  import opened TemplateDisk
  import opened DirectoryScan
  import opened FaceStorageManager
  import opened FaceStorageCallbacks

  const ENROLL_REQUIRED_GOOD_FRAMES := 5
  const MAX_I32: i32 := 0x7fff_ffff

  const NO_MATCH := 1
  const FAILED := 3
  const KEEP := 19
  const CANCELLED := -1

  function MockEmbedding(): Embedding {
    seq(EMBEDDING_FLOATS, _ => 0)
  }

  /** Saving a fresh 512-float template adds exactly one entry to what loading returns. */
  lemma SavedEmbeddingAppears(v: Vault, before: Disk, after: Disk, u: i32, f: i32, e: Embedding)
    requires f != -1 && |e| == EMBEDDING_FLOATS
    requires forall g: i32 :: g != f ==> Lookup(v, after, u, g) == Lookup(v, before, u, g)
    requires Lookup(v, after, u, f).Some? && BytesToWords(Lookup(v, after, u, f).value.templateData) == e
    requires |Lookup(v, after, u, f).value.templateData| == EMBEDDING_BYTES
    requires WrongSized(v, before, u) == {}
    ensures Embeddings(v, after, u) == Embeddings(v, before, u)[f := e]
    ensures WrongSized(v, after, u) == {}
  {
    hide Lookup, Embeddings, WrongSized, BytesToWords;
    forall g: i32
      ensures g in Embeddings(v, after, u) <==> g in Embeddings(v, before, u) || g == f
      ensures g in Embeddings(v, after, u) ==>
                Embeddings(v, after, u)[g] == if g == f then e else Embeddings(v, before, u)[g]
      ensures g !in WrongSized(v, after, u)
    {
      EmbeddingsAnswerByFace(v, before, u, g);
      EmbeddingsAnswerByFace(v, after, u, g);
    }
  }

  /** Equal answers load equally, and forgetting one face removes that entry alone. */
  lemma ForgottenEmbeddingDisappears(v: Vault, before: Disk, after: Disk, u: i32, gone: set<i32>)
    requires SameAnswersExcept(v, before, after, u, gone)
    requires WrongSized(v, before, u) == {}
    ensures Embeddings(v, after, u) == Embeddings(v, before, u) - gone
    ensures WrongSized(v, after, u) == {}
  {
    hide Lookup, Embeddings, WrongSized, BytesToWords;
    forall g: i32
      ensures g in Embeddings(v, after, u) <==> g in Embeddings(v, before, u) && g !in gone
      ensures g in Embeddings(v, after, u) ==> Embeddings(v, after, u)[g] == Embeddings(v, before, u)[g]
      ensures g !in WrongSized(v, after, u)
    {
      EmbeddingsAnswerByFace(v, before, u, g);
      EmbeddingsAnswerByFace(v, after, u, g);
    }
  }

  /** Positive, above every enrolled id, and the least such. */
  ghost predicate IsNextId(enrolled: map<i32, Embedding>, id: int) {
    && id >= 1
    && (forall f :: f in enrolled ==> f < id)
    && (id == 1 || id - 1 in enrolled)
  }

  lemma UnknownFaceIsNotEncrypted(v: Vault, disk: Disk, u: i32, f: i32)
    requires Lookup(v, disk, u, f) == None
    ensures FromEncrypted(v, disk, u, f) == None
  {
  }

  lemma {:induction false} SmallestExists(s: set<i32>) returns (least: i32)
    requires s != {}
    ensures least in s && forall g :: g in s ==> least <= g
    decreases |s|
  {
    least :| least in s;
    if s != {least} {
      var other := SmallestExists(s - {least});
      assert s == s - {least} + {least};
      if other < least {
        least := other;
      }
    }
  }

  /** One call on the engine during a session. */
  datatype Call = Restore(u: i32) | EnrollFrame(io: SaveIo) | Remove(f: i32) | Start | CancelAll

  lemma EmbeddingsAreThoseOfTheScan(v: Vault, disk: Disk, u: i32)
    ensures Embeddings(v, disk, u) == EmbeddingsOf(ScanResult(v, disk, u))
  {
  }

  /** Every template of the right size still loads, unless its face is among those to be removed. */
  ghost predicate KeepsUnremoved(v: Vault, before: Disk, after: Disk, calls: seq<Call>) {
    forall u: i32, f: i32 :: IsRightSized(v, before, u, f) && Remove(f) !in calls ==>
      Lookup(v, after, u, f) == Lookup(v, before, u, f)
  }

  predicate IsRightSized(v: Vault, disk: Disk, u: i32, f: i32) {
    var t := Lookup(v, disk, u, f);
    t.Some? && |t.value.templateData| == EMBEDDING_BYTES
  }

  lemma RestoringKeepsUnremoved(v: Vault, first: Disk, before: Disk, after: Disk, calls: seq<Call>, w: i32)
    requires KeepsUnremoved(v, first, before, calls)
    requires SameAnswersExcept(v, before, after, w, WrongSized(v, before, w))
    ensures KeepsUnremoved(v, first, after, calls)
  {
    hide Lookup, Embeddings, WrongSized;
    forall u: i32, f: i32 | IsRightSized(v, first, u, f) && Remove(f) !in calls
      ensures Lookup(v, after, u, f) == Lookup(v, first, u, f)
    {
      EmbeddingsAnswerByFace(v, before, u, f);
    }
  }

  class FaceEngine {
    const callbacks: FaceStorageCallbacks
    var enrolledEmbeddings: map<i32, Embedding>
    var enrollFrameCount: nat
    var cancelled: bool
    var captureRequested: bool
    /** The user whose faces were restored last. */
    ghost var user: i32

    constructor (callbacks: FaceStorageCallbacks)
      ensures this.callbacks == callbacks && enrolledEmbeddings == map[] && enrollFrameCount == 0 && !cancelled
    {
      this.callbacks := callbacks;
      enrolledEmbeddings := map[];
      enrollFrameCount := 0;
      cancelled := false;
      captureRequested := false;
    }

    ghost function Vault(): TemplateDisk.Vault {
      callbacks.storage.vault
    }

    ghost function Disk(): TemplateDisk.Disk
      reads callbacks.storage
    {
      callbacks.storage.files
    }

    /** The cache is what loading the user's templates would return now, and loading would delete
        nothing for its size. */
    ghost predicate InSync()
      reads this, callbacks.storage
    {
      && enrolledEmbeddings == Embeddings(Vault(), Disk(), user)
      && WrongSized(Vault(), Disk(), user) == {}
      && enrollFrameCount < ENROLL_REQUIRED_GOOD_FRAMES
    }

    /** The cache becomes what the load returned. It is in step with the disk if and only if every embedding in it
        is what its face's files hold after the scan; so it is whenever the key service works. */
    method RestoreEnrollments(userId: i32, services: Services) returns (ok: bool, ghost entries: seq<string>)
      requires enrollFrameCount < ENROLL_REQUIRED_GOOD_FRAMES
      modifies this`enrolledEmbeddings, this`user, callbacks`vendorCode, callbacks.storage`files
      ensures ok && user == userId && IsListing(old(Disk()), userId, entries)
      ensures enrolledEmbeddings == EmbeddingsOf(Found(services, old(Disk()), userId, entries))
      ensures InSync() <==> forall f :: f in enrolledEmbeddings ==>
                EmbeddingOf(Vault(), Left(services, old(Disk()), userId, entries), userId, f) == Some(enrolledEmbeddings[f])
      ensures (forall i :: services(i) == Vault()) ==>
                && InSync()
                && enrolledEmbeddings == Embeddings(Vault(), old(Disk()), userId)
                && SameAnswersExcept(Vault(), old(Disk()), Disk(), userId, WrongSized(Vault(), old(Disk()), userId))
    {
      hide Lookup, Embeddings, WrongSized, BytesToWords, EmbeddingOf, Found, Left, FirstLoad, IsListing, EmbeddingsOf, WrongSizedOf;
      ghost var before := Disk();
      var loaded;
      loaded, entries := callbacks.LoadTemplates(userId, services);
      ghost var after := Disk();
      enrolledEmbeddings := map[];
      for i := 0 to |loaded|
        invariant Disk() == after
        invariant enrolledEmbeddings == MapOf(loaded[..i])
      {
        assert loaded[..i + 1][..i] == loaded[..i];
        enrolledEmbeddings := enrolledEmbeddings[loaded[i].0 := loaded[i].1];
      }
      assert loaded[..|loaded|] == loaded;
      MapOfListed(loaded, EmbeddingsOf(Found(services, before, userId, entries)));
      LoadedAgreesWithDiskIff(services, Vault(), before, after, userId, entries);
      user := userId;
      ok := true;
      if forall i :: services(i) == Vault() {
        EmbeddingsAreThoseOfTheScan(Vault(), before, userId);
        DroppingWrongSized(Vault(), before, Disk(), userId);
      }
    }

    /** One more than the largest enrolled id that is positive. */
    method NextFaceId() returns (id: int)
      ensures IsNextId(enrolledEmbeddings, id)
    {
      var maxId := 0;
      var todo := enrolledEmbeddings.Keys;
      while todo != {}
        invariant todo <= enrolledEmbeddings.Keys
        invariant maxId >= 0 && forall f :: f in enrolledEmbeddings && f !in todo ==> f <= maxId
        invariant maxId == 0 || maxId in enrolledEmbeddings
        decreases todo
      {
        var faceId :| faceId in todo;
        todo := todo - {faceId};
        if faceId > maxId {
          maxId := faceId;
        }
      }
      id := maxId + 1;
    }

    /** Every fifth accepted frame issues a positive id that no stored template of the user has, and
        stores a template under it. Cache and disk change together or not at all. */
    method Enroll(userId: i32, io: SaveIo) returns (code: int, outFaceId: Option<i32>)
      requires InSync() && userId == user && SealsHonestly(Vault(), io)
      requires MAX_I32 !in enrolledEmbeddings
      modifies this`enrolledEmbeddings, this`enrollFrameCount, callbacks.storage`files
      ensures InSync()
      ensures code in {CANCELLED, KEEP, FAILED, FACE_OK}
      ensures code == CANCELLED <==> cancelled
      ensures code == KEEP <==> !cancelled && old(enrollFrameCount) < ENROLL_REQUIRED_GOOD_FRAMES - 1
      ensures enrollFrameCount == if cancelled then old(enrollFrameCount)
                                  else (old(enrollFrameCount) + 1) % ENROLL_REQUIRED_GOOD_FRAMES
      ensures code in {CANCELLED, KEEP} ==> Disk() == old(Disk()) && outFaceId == None
      ensures code in {FAILED, FACE_OK} ==>
                && outFaceId.Some? && IsNextId(old(enrolledEmbeddings), outFaceId.value)
                && (code == FACE_OK <==> SaveSucceeds(Vault(), io, userId, outFaceId.value, MockEmbedding()))
                && Lookup(Vault(), old(Disk()), userId, outFaceId.value) == None
      ensures code == FACE_OK ==>
                && enrolledEmbeddings == old(enrolledEmbeddings)[outFaceId.value := MockEmbedding()]
                && Lookup(Vault(), Disk(), userId, outFaceId.value).Some?
      ensures code != FACE_OK ==> enrolledEmbeddings == old(enrolledEmbeddings)
      ensures forall w: i32, f: i32 :: (code == FACE_OK ==> w != userId || f != outFaceId.value) ==>
                Lookup(Vault(), Disk(), w, f) == Lookup(Vault(), old(Disk()), w, f)
    {
      hide Lookup, Embeddings, WrongSized, BytesToWords;
      outFaceId := None;
      if cancelled {
        return CANCELLED, None;
      }
      enrollFrameCount := enrollFrameCount + 1;
      if enrollFrameCount < ENROLL_REQUIRED_GOOD_FRAMES {
        return KEEP, None;
      }
      var next := NextFaceId();
      var faceId: i32 := next;
      ghost var v, before := Vault(), Disk();
      EmbeddingsAnswerByFace(v, before, userId, faceId);
      assert enrolledEmbeddings == Embeddings(v, before, userId) && faceId !in enrolledEmbeddings;
      assert Lookup(v, before, userId, faceId).None?;
      UnknownFaceIsNotEncrypted(v, before, userId, faceId);
      var mockEmbedding := MockEmbedding();
      var ok := callbacks.SaveTemplate(userId, faceId, mockEmbedding, io);
      enrollFrameCount := 0;
      if !ok {
        hide SaveSucceeds;
        ForgottenEmbeddingDisappears(v, before, Disk(), userId, {});
        return FAILED, Some(faceId);
      }
      hide SaveSucceeds;
      SavedEmbeddingAppears(v, before, Disk(), userId, faceId, mockEmbedding);
      enrolledEmbeddings := enrolledEmbeddings[faceId := mockEmbedding];
      return FACE_OK, Some(faceId);
    }

    method DeleteEnrollment(userId: i32, faceId: i32) returns (code: int)
      requires InSync() && userId == user
      modifies this`enrolledEmbeddings, callbacks.storage`files
      ensures InSync() && code == 0
      ensures enrolledEmbeddings == old(enrolledEmbeddings) - {faceId}
      ensures SameAnswersExcept(Vault(), old(Disk()), Disk(), userId, {faceId})
    {
      ghost var before := Disk();
      var _ := callbacks.DeleteTemplate(userId, faceId);
      enrolledEmbeddings := enrolledEmbeddings - {faceId};
      ForgottenEmbeddingDisappears(Vault(), before, Disk(), userId, {faceId});
      code := 0;
    }

    /** The enrolled ids in ascending order: exactly the faces that load from disk. */
    method GetEnrolledFaceIds() returns (ids: seq<i32>)
      requires InSync()
      ensures forall i, j :: 0 <= i < j < |ids| ==> ids[i] < ids[j]
      ensures forall f: i32 :: f in ids <==> f != -1 && Lookup(Vault(), Disk(), user, f).Some?
    {
      hide Lookup, Embeddings, WrongSized, BytesToWords;
      ids := [];
      var todo := enrolledEmbeddings.Keys;
      while todo != {}
        invariant forall i, j :: 0 <= i < j < |ids| ==> ids[i] < ids[j]
        invariant forall i, f :: 0 <= i < |ids| && f in todo ==> ids[i] < f
        invariant forall f :: f in enrolledEmbeddings <==> f in ids || f in todo
        decreases todo
      {
        ghost var least := SmallestExists(todo);
        var faceId :| faceId in todo && forall g :: g in todo ==> faceId <= g;
        todo := todo - {faceId};
        ids := ids + [faceId];
      }
      forall f: i32
        ensures f in ids <==> f != -1 && Lookup(Vault(), Disk(), user, f).Some?
      {
        EmbeddingsAnswerByFace(Vault(), Disk(), user, f);
      }
    }

    /** Matches exactly when some face of the user loads from disk, and then the smallest one. */
    method Authenticate() returns (code: int, outFaceId: i32)
      requires InSync()
      ensures code in {CANCELLED, NO_MATCH, FACE_OK}
      ensures code == CANCELLED <==> cancelled
      ensures code == FACE_OK ==> Lookup(Vault(), Disk(), user, outFaceId).Some?
      ensures code == FACE_OK ==> forall f: i32 :: f != -1 && f < outFaceId ==> Lookup(Vault(), Disk(), user, f) == None
      ensures code == NO_MATCH ==> forall f: i32 :: f != -1 ==> Lookup(Vault(), Disk(), user, f) == None
    {
      if cancelled {
        return CANCELLED, 0;
      }
      var ids := GetEnrolledFaceIds();
      if ids == [] {
        return NO_MATCH, -1;
      }
      return FACE_OK, ids[0];
    }

    method StartOperation()
      modifies this`cancelled
      ensures !cancelled
    {
      cancelled := false;
    }

    /** Cancelling also restarts the enrollment frame count. */
    method CancelAll()
      modifies this`cancelled, this`enrollFrameCount, this`captureRequested
      ensures cancelled && enrollFrameCount == 0 && !captureRequested
    {
      cancelled := true;
      enrollFrameCount := 0;
      captureRequested := false;
    }

    /** Any run of calls keeps cache and disk in step and issues only positive ids. No save of the run
        overwrites a template, and nothing is lost but what was removed on request or has a wrong
        size. The run stops early only when the ids run out. */
    method Run(userId: i32, calls: seq<Call>) returns (issued: seq<i32>, done: nat)
      requires InSync() && userId == user
      requires forall c :: c in calls && c.EnrollFrame? ==> SealsHonestly(Vault(), c.io)
      modifies this, callbacks`vendorCode, callbacks.storage`files
      ensures InSync()
      ensures done <= |calls| && (done < |calls| ==> MAX_I32 in enrolledEmbeddings)
      ensures forall id :: id in issued ==> id >= 1
      ensures KeepsUnremoved(Vault(), old(Disk()), Disk(), calls)
    {
      hide Lookup, Embeddings, WrongSized;
      issued := [];
      done := 0;
      var sessionUser := userId;
      while done < |calls|
        invariant InSync() && sessionUser == user && done <= |calls|
        invariant forall id :: id in issued ==> id >= 1
        invariant KeepsUnremoved(Vault(), old(Disk()), Disk(), calls)
      {
        ghost var before := Disk();
        match calls[done] {
          case Restore(u) =>
            var vault := callbacks.storage.vault;
            var _, _ := RestoreEnrollments(u, _ => vault);
            sessionUser := u;
            RestoringKeepsUnremoved(Vault(), old(Disk()), before, Disk(), calls, u);
          case EnrollFrame(io) =>
            if MAX_I32 in enrolledEmbeddings {
              return;
            }
            var code, id := Enroll(sessionUser, io);
            if id.Some? {
              issued := issued + [id.value];
            }
          case Remove(f) =>
            var _ := DeleteEnrollment(sessionUser, f);
          case Start =>
            StartOperation();
          case CancelAll =>
            CancelAll();
        }
        done := done + 1;
      }
    }
  }
}
