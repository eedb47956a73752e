/** The callbacks through which the engine stores float embeddings. */
module FaceStorageCallbacks {
  import opened Wrappers
  import opened Bytes
  import opened Checksum
  import opened TemplateSerializer
  import opened FileNames
  import opened TemplateDisk
  import opened DirectoryScan
  import opened FaceStorageManager

  const EMBEDDING_FLOATS := 512
  const EMBEDDING_BYTES := 4 * EMBEDDING_FLOATS

  /** The number of floats whose size no longer fits the 32-bit size field. */
  const WORD_LIMIT := 0x4000_0000

  const FACE_OK := 0
  const REQUIRE_REENROLLMENT := 1059

  // ---------------------------------------------------------------- floats as stored words

  /** A float is its 32-bit pattern; copying a float vector copies its words. */
  type Embedding = seq<u32>

  function WordsToBytes(ws: Embedding): seq<byte> {
    if ws == [] then [] else U32ToBytes(ws[0]) + WordsToBytes(ws[1..])
  }

  function BytesToWords(bs: seq<byte>): Embedding {
    if |bs| < 4 then [] else [BytesToU32(bs[..4])] + BytesToWords(bs[4..])
  }

  /** An embedding comes back from its bytes word for word. */
  lemma {:induction false} WordsSurviveBytes(ws: Embedding)
    ensures |WordsToBytes(ws)| == 4 * |ws|
    ensures BytesToWords(WordsToBytes(ws)) == ws
  {
    if ws == [] {
    } else {
      WordsSurviveBytes(ws[1..]);
      U32SurvivesBytes(ws[0]);
      var bs := WordsToBytes(ws);
      assert bs[..4] == U32ToBytes(ws[0]) && bs[4..] == WordsToBytes(ws[1..]);
    }
  }

  // ---------------------------------------------------------------- what the callbacks load

  /** The faces whose templates have another size, and the embeddings of the others. */
  function WrongSizedOf(found: map<i32, FaceTemplate>): set<i32> {
    set f | f in found && |found[f].templateData| != EMBEDDING_BYTES
  }

  function EmbeddingsOf(found: map<i32, FaceTemplate>): map<i32, Embedding> {
    map f | f in found && |found[f].templateData| == EMBEDDING_BYTES :: BytesToWords(found[f].templateData)
  }

  function WrongSized(v: Vault, disk: Disk, u: i32): set<i32> {
    WrongSizedOf(ScanResult(v, disk, u))
  }

  /** The embeddings that loading the user's templates returns while the key service works. */
  function Embeddings(v: Vault, disk: Disk, u: i32): map<i32, Embedding> {
    EmbeddingsOf(ScanResult(v, disk, u))
  }

  /** The answer for one face, read off its own lookup. */
  function EmbeddingOf(v: Vault, disk: Disk, u: i32, f: i32): Option<Embedding> {
    var t := Lookup(v, disk, u, f);
    if f != -1 && t.Some? && |t.value.templateData| == EMBEDDING_BYTES then Some(BytesToWords(t.value.templateData))
    else None
  }

  lemma EmbeddingsAnswerByFace(v: Vault, disk: Disk, u: i32, f: i32)
    ensures f in Embeddings(v, disk, u) <==> EmbeddingOf(v, disk, u, f).Some?
    ensures f in Embeddings(v, disk, u) ==> Some(Embeddings(v, disk, u)[f]) == EmbeddingOf(v, disk, u, f)
    ensures f in WrongSized(v, disk, u)
       <==> f != -1 && Lookup(v, disk, u, f).Some? && EmbeddingOf(v, disk, u, f).None?
  {
    ScanFindsExactlyTheLoadable(v, disk, u, f);
  }

  /** The version test of the load callback never fires: what loads has the current version, whatever the key
      service does. */
  lemma LoadedVersionIsCurrent(services: Services, disk: Disk, u: i32, entries: seq<string>, f: i32)
    requires f in Found(services, disk, u, entries)
    ensures Found(services, disk, u, entries)[f].version == CURRENT_VERSION
    ensures Found(services, disk, u, entries)[f].faceId == f
  {
    FoundIsFirstLoad(services, disk, u, entries, f);
    FirstLoadIsOfTheFace(services, disk, u, entries, |entries|, f);
  }

  ghost predicate SameAnswersExcept(v: Vault, before: Disk, after: Disk, u: i32, gone: set<i32>) {
    forall w: i32, f: i32 ::
      Lookup(v, after, w, f) == if w == u && f in gone then None else Lookup(v, before, w, f)
  }

  lemma SteadyScanForgetsOnlyTheWrongSized(v: Vault, before: Disk, after: Disk, u: i32)
    requires SameAnswersExcept(v, Cleaned(v, before, u), after, u, WrongSized(v, before, u))
    ensures SameAnswersExcept(v, before, after, u, WrongSized(v, before, u))
  {
    hide Lookup, Cleaned, WrongSized;
    forall w: i32, f: i32
      ensures Lookup(v, Cleaned(v, before, u), w, f) == Lookup(v, before, w, f)
    {
      CleaningKeepsAnswers(v, before, u, w, f);
    }
  }

  /** With any behaviour of the key service during a load: what it returned is what a load with a working service
      would return next, and that would delete nothing, if and only if every returned embedding is what its
      face's files hold after the scan. */
  lemma LoadedAgreesWithDiskIff(services: Services, v: Vault, disk: Disk, after: Disk, u: i32, entries: seq<string>)
    requires IsListing(disk, u, entries)
    requires SameAnswersExcept(v, Left(services, disk, u, entries), after, u, WrongSizedOf(Found(services, disk, u, entries)))
    ensures var loaded := EmbeddingsOf(Found(services, disk, u, entries));
            (loaded == Embeddings(v, after, u) && WrongSized(v, after, u) == {})
            <==> forall f :: f in loaded ==> EmbeddingOf(v, Left(services, disk, u, entries), u, f) == Some(loaded[f])
  {
    hide Lookup, Left, Found, Embeddings, WrongSized, BytesToWords, IsListing, FirstLoad;
    var found, left := Found(services, disk, u, entries), Left(services, disk, u, entries);
    var loaded := EmbeddingsOf(found);
    forall f: i32
      ensures f in Embeddings(v, after, u) <==> EmbeddingOf(v, after, u, f).Some?
      ensures f in Embeddings(v, after, u) ==> Some(Embeddings(v, after, u)[f]) == EmbeddingOf(v, after, u, f)
      ensures f in WrongSized(v, after, u) <==> f != -1 && Lookup(v, after, u, f).Some? && EmbeddingOf(v, after, u, f).None?
      ensures f in loaded ==> EmbeddingOf(v, after, u, f) == EmbeddingOf(v, left, u, f)
      ensures f !in loaded && f != -1 ==> Lookup(v, after, u, f) == None
    {
      EmbeddingsAnswerByFace(v, after, u, f);
      FoundIsFirstLoad(services, disk, u, entries, f);
      LookupAfterScan(services, v, disk, u, entries, u, f);
    }
  }

  lemma DroppingWrongSized(v: Vault, before: Disk, after: Disk, u: i32)
    requires SameAnswersExcept(v, before, after, u, WrongSized(v, before, u))
    ensures Embeddings(v, after, u) == Embeddings(v, before, u)
    ensures WrongSized(v, after, u) == {}
  {
    hide Lookup, Embeddings, WrongSized, BytesToWords;
    forall f: i32
      ensures f !in WrongSized(v, after, u)
      ensures f in Embeddings(v, after, u) <==> f in Embeddings(v, before, u)
      ensures f in Embeddings(v, after, u) ==> Embeddings(v, after, u)[f] == Embeddings(v, before, u)[f]
    {
      EmbeddingsAnswerByFace(v, before, u, f);
      EmbeddingsAnswerByFace(v, after, u, f);
    }
  }

  /** `ps` lists exactly the entries of `m`, each once. */
  ghost predicate Lists(ps: seq<(i32, Embedding)>, m: map<i32, Embedding>) {
    && DistinctIds(ps)
    && (forall f, e :: (f, e) in ps <==> f in m && m[f] == e)
  }

  /** What the load callback keeps of a list of templates, and the faces it drops. */
  function Kept(ts: seq<FaceTemplate>): seq<(i32, Embedding)> {
    if ts == [] then []
    else
      var t := ts[|ts| - 1];
      Kept(ts[..|ts| - 1])
      + (if |t.templateData| == EMBEDDING_BYTES then [(t.faceId, BytesToWords(t.templateData))] else [])
  }

  function Dropped(ts: seq<FaceTemplate>): set<i32> {
    set t | t in ts && |t.templateData| != EMBEDDING_BYTES :: t.faceId
  }

  lemma {:induction false} KeptPairs(ts: seq<FaceTemplate>, p: (i32, Embedding))
    ensures p in Kept(ts)
       <==> exists t :: t in ts && |t.templateData| == EMBEDDING_BYTES && p == (t.faceId, BytesToWords(t.templateData))
  {
    if ts == [] {
    } else {
      var front, last := ts[..|ts| - 1], ts[|ts| - 1];
      KeptPairs(front, p);
      assert ts == front + [last];
    }
  }

  lemma {:induction false} KeptIdsAreDistinct(ts: seq<FaceTemplate>)
    requires forall i, j :: 0 <= i < j < |ts| ==> ts[i].faceId != ts[j].faceId
    ensures DistinctIds(Kept(ts))
  {
    if ts == [] {
    } else {
      var front := ts[..|ts| - 1];
      KeptIdsAreDistinct(front);
      forall i | 0 <= i < |Kept(front)|
        ensures Kept(front)[i].0 != ts[|ts| - 1].faceId
      {
        KeptPairs(front, Kept(front)[i]);
      }
    }
  }

  lemma KeptListsTheEmbeddings(found: map<i32, FaceTemplate>, ts: seq<FaceTemplate>)
    requires Enumerates(ts, found) && forall f :: f in found ==> found[f].faceId == f
    ensures Lists(Kept(ts), EmbeddingsOf(found))
    ensures Dropped(ts) == WrongSizedOf(found)
  {
    var m := EmbeddingsOf(found);
    forall t | t in ts
      ensures t.faceId in found && found[t.faceId] == t
    {
      var i :| 0 <= i < |ts| && ts[i] == t;
    }
    forall f: i32 | f in found
      ensures found[f] in ts && found[f].faceId == f
    {
    }
    forall f: i32, e: Embedding
      ensures (f, e) in Kept(ts) <==> f in m && m[f] == e
    {
      KeptPairs(ts, (f, e));
    }
    KeptIdsAreDistinct(ts);
  }

  /** The map built by inserting the pairs in order. */
  function MapOf(ps: seq<(i32, Embedding)>): map<i32, Embedding> {
    if ps == [] then map[] else MapOf(ps[..|ps| - 1])[ps[|ps| - 1].0 := ps[|ps| - 1].1]
  }

  ghost predicate DistinctIds(ps: seq<(i32, Embedding)>) {
    forall i, j :: 0 <= i < j < |ps| ==> ps[i].0 != ps[j].0
  }

  lemma LastIdIsNew(ps: seq<(i32, Embedding)>, e: Embedding)
    requires ps != [] && DistinctIds(ps)
    ensures (ps[|ps| - 1].0, e) !in ps[..|ps| - 1]
  {
  }

  lemma {:induction false} MapOfDistinct(ps: seq<(i32, Embedding)>, f: i32, e: Embedding)
    requires DistinctIds(ps)
    ensures f in MapOf(ps) && MapOf(ps)[f] == e <==> (f, e) in ps
  {
    if ps == [] {
    } else {
      var front, last := ps[..|ps| - 1], ps[|ps| - 1];
      assert DistinctIds(front);
      MapOfDistinct(front, f, e);
      LastIdIsNew(ps, e);
      assert (f, e) in ps <==> (f, e) in front || (f, e) == last by {
        assert ps == front + [last];
      }
    }
  }

  lemma MapOfListed(ps: seq<(i32, Embedding)>, m: map<i32, Embedding>)
    requires Lists(ps, m)
    ensures MapOf(ps) == m
  {
    var n := MapOf(ps);
    forall f | f in n
      ensures f in m && m[f] == n[f]
    {
      MapOfDistinct(ps, f, n[f]);
    }
    forall f | f in m
      ensures f in n
    {
      MapOfDistinct(ps, f, m[f]);
    }
  }

  lemma KeptAndDroppedOneMore(ts: seq<FaceTemplate>, i: nat)
    requires i < |ts|
    ensures |ts[i].templateData| == EMBEDDING_BYTES ==>
              && Kept(ts[..i + 1]) == Kept(ts[..i]) + [(ts[i].faceId, BytesToWords(ts[i].templateData))]
              && Dropped(ts[..i + 1]) == Dropped(ts[..i])
    ensures |ts[i].templateData| != EMBEDDING_BYTES ==>
              Kept(ts[..i + 1]) == Kept(ts[..i]) && Dropped(ts[..i + 1]) == Dropped(ts[..i]) + {ts[i].faceId}
  {
    assert ts[..i + 1][..i] == ts[..i];
    assert ts[..i + 1] == ts[..i] + [ts[i]];
  }

  lemma ForgettingOneMore(v: Vault, a: Disk, b: Disk, c: Disk, u: i32, gone: set<i32>, f: i32)
    requires SameAnswersExcept(v, a, b, u, gone) && SameAnswersExcept(v, b, c, u, {f})
    ensures SameAnswersExcept(v, a, c, u, gone + {f})
  {
  }

  /** The words of a beginning of the bytes are a beginning of the words. */
  lemma {:induction false} WordsOfPrefix(ws: Embedding, n: nat)
    requires n <= |ws|
    ensures |WordsToBytes(ws)| == 4 * |ws| && WordsToBytes(ws)[..4 * n] == WordsToBytes(ws[..n])
  {
    WordsSurviveBytes(ws);
    if n == 0 {
    } else {
      WordsOfPrefix(ws[1..], n - 1);
      assert ws[..n][1..] == ws[1..][..n - 1];
      assert WordsToBytes(ws)[..4 * n] == U32ToBytes(ws[0]) + WordsToBytes(ws[1..])[..4 * (n - 1)];
    }
  }

  /** What the 32-bit size field leaves of an embedding. */
  function Truncated(e: Embedding): (kept: Embedding)
    ensures kept == e <==> |e| < WORD_LIMIT
  {
    e[..|e| % WORD_LIMIT]
  }

  lemma SizeFieldOfWords(e: Embedding)
    ensures TruncateToU32(4 * |e|) == 4 * |Truncated(e)|
  {
    var q, r := |e| / WORD_LIMIT, |e| % WORD_LIMIT;
    assert 4 * |e| == q * TWO32 + 4 * r;
  }

  lemma BytesOfTruncated(e: Embedding)
    ensures var bytes := WordsToBytes(e);
            bytes[..TruncateToU32(|bytes|)] == WordsToBytes(Truncated(e))
  {
    var n := |Truncated(e)|;
    assert Truncated(e) == e[..n];
    SizeFieldOfWords(e);
    hide TruncateToU32, Truncated, WordsToBytes;
    WordsOfPrefix(e, n);
  }

  lemma StoredWords(v: Vault, t: FaceTemplate, e: Embedding)
    requires t.version == CURRENT_VERSION && t.templateData == WordsToBytes(e)
    ensures Answer(v, t).Some?
    ensures var data := Answer(v, t).value.templateData;
            |data| == 4 * |Truncated(e)| && BytesToWords(data) == Truncated(e)
  {
    hide WordsToBytes, BytesToWords, TruncateToU32, Truncated, Fnv1a;
    BytesOfTruncated(e);
    WordsSurviveBytes(Truncated(e));
  }

  /** Every foreign call that a save needs works: the MAC of the image, opening its temporary file, the rename. */
  ghost predicate SaveSucceeds(v: Vault, io: SaveIo, u: i32, f: i32, e: Embedding) {
    io.opens && io.renames && v.sign(Signed(FaceTemplate(CURRENT_VERSION, f, u, WordsToBytes(e), 0, []))) != []
  }

  lemma SignedIgnoresChecksumAndMac(t: FaceTemplate)
    ensures Signed(t) == Signed(t.(checksum := 0, mac := []))
  {
  }

  class FaceStorageCallbacks {
    const storage: FaceStorageManager
    var vendorCode: int

    constructor (storage: FaceStorageManager)
      ensures this.storage == storage && vendorCode == FACE_OK
    {
      this.storage := storage;
      vendorCode := FACE_OK;
    }

    /** A failed save changes no answer, and a successful one no other answer. What it saved loads with
        the words of the embedding, up to the 32-bit size field, unless a stale file stays and an
        encrypted template is readable in it. */
    method SaveTemplate(userId: i32, faceId: i32, embedding: Embedding, io: SaveIo) returns (ok: bool)
      requires SealsHonestly(storage.vault, io)
      modifies storage`files
      ensures ok <==> SaveSucceeds(storage.vault, io, userId, faceId, embedding)
      ensures forall w: i32, f: i32 :: w != userId || f != faceId || !ok ==>
                Lookup(storage.vault, storage.files, w, f) == Lookup(storage.vault, old(storage.files), w, f)
      ensures ok && (io.removes || FromEncrypted(storage.vault, old(storage.files), userId, faceId) == None) ==>
                var t := Lookup(storage.vault, storage.files, userId, faceId);
                && t.Some?
                && BytesToWords(t.value.templateData) == Truncated(embedding)
                && |t.value.templateData| == 4 * |Truncated(embedding)|
    {
      var checksum: u32, mac: seq<byte> := *, *;
      var tmpl := FaceTemplate(CURRENT_VERSION, faceId, userId, WordsToBytes(embedding), checksum, mac);
      ghost var v, before := storage.vault, storage.files;
      ghost var sealed := io.seal(userId, Serialized(v.sign, tmpl));
      ghost var steps;
      ok, steps := storage.SaveTemplate(tmpl, io);
      assert ok <==> SaveSucceeds(v, io, userId, faceId, embedding) by {
        SignedIgnoresChecksumAndMac(tmpl);
        hide Signed, WordsToBytes;
      }
      forall w: i32, f: i32 | w != userId || f != faceId || !ok
        ensures Lookup(v, storage.files, w, f) == Lookup(v, before, w, f)
      {
        if ok {
          SavingLeavesOthersAlone(v, before, tmpl, sealed, w, f);
        } else {
          TempIsInvisible(v, before, tmpl, sealed, [], w, f);
        }
      }
      if ok {
        LookupAfterSave(v, before, tmpl, sealed);
        LookupAfterRename(v, before, tmpl, sealed);
        StoredWords(v, tmpl, embedding);
      }
    }

    method DeleteTemplate(userId: i32, faceId: i32) returns (ok: bool)
      modifies storage`files
      ensures ok
      ensures SameAnswersExcept(storage.vault, old(storage.files), storage.files, userId, {faceId})
    {
      ghost var v, before := storage.vault, storage.files;
      ok := storage.DeleteTemplate(userId, faceId);
      forall w: i32, f: i32
        ensures Lookup(v, storage.files, w, f) == if w == userId && f in {faceId} then None else Lookup(v, before, w, f)
      {
        LookupAfterDelete(v, before, userId, faceId, w, f);
      }
    }

    /** Returns exactly the 512-float templates that the scan found, forgets the others that it found, and asks
        for re-enrollment in exactly the calls that forgot one. While the key service works these are the
        stored ones, and nothing else is forgotten. */
    method LoadTemplates(userId: i32, services: Services) returns (result: seq<(i32, Embedding)>, ghost entries: seq<string>)
      modifies storage`files, this`vendorCode
      ensures IsListing(old(storage.files), userId, entries)
      ensures var found := Found(services, old(storage.files), userId, entries);
              && Lists(result, EmbeddingsOf(found))
              && SameAnswersExcept(storage.vault, Left(services, old(storage.files), userId, entries), storage.files,
                                   userId, WrongSizedOf(found))
              && vendorCode == if WrongSizedOf(found) != {} then REQUIRE_REENROLLMENT else old(vendorCode)
      ensures (forall i :: services(i) == storage.vault) ==>
                && Found(services, old(storage.files), userId, entries) == ScanResult(storage.vault, old(storage.files), userId)
                && SameAnswersExcept(storage.vault, old(storage.files), storage.files, userId,
                                     WrongSized(storage.vault, old(storage.files), userId))
    {
      hide Lookup, FirstLoad, Found, Left, Cleaned, ScanResult;
      result := [];
      ghost var v, before := storage.vault, storage.files;
      ghost var gone: set<i32> := {};
      var templates;
      templates, entries := storage.LoadAllTemplatesForUser(userId, services);
      ghost var left, found := storage.files, Found(services, before, userId, entries);
      for i := 0 to |templates|
        invariant SameAnswersExcept(v, left, storage.files, userId, gone)
        invariant gone == Dropped(templates[..i])
        invariant result == Kept(templates[..i])
        invariant vendorCode == if gone != {} then REQUIRE_REENROLLMENT else old(vendorCode)
      {
        var tmpl := templates[i];
        KeptAndDroppedOneMore(templates, i);
        LoadedVersionIsCurrent(services, before, userId, entries, tmpl.faceId);
        if tmpl.version != CURRENT_VERSION || |tmpl.templateData| != EMBEDDING_BYTES {
          ghost var current := storage.files;
          var _ := DeleteTemplate(userId, tmpl.faceId);
          ForgettingOneMore(v, left, current, storage.files, userId, gone, tmpl.faceId);
          vendorCode := REQUIRE_REENROLLMENT;
          gone := gone + {tmpl.faceId};
        } else {
          result := result + [(tmpl.faceId, BytesToWords(tmpl.templateData))];
        }
      }
      assert templates[..|templates|] == templates;
      forall f | f in found
        ensures found[f].faceId == f
      {
        LoadedVersionIsCurrent(services, before, userId, entries, f);
      }
      KeptListsTheEmbeddings(found, templates);
      if forall i :: services(i) == v {
        SteadyScanIgnoresOrder(services, v, before, userId, entries);
        SteadyScanForgetsOnlyTheWrongSized(v, before, storage.files, userId);
      }
    }
  }
}
