# Verification of the face HAL

This project models the biometric face HAL of this repository and proves what its storage, camera,
session and frame code promises. `dafny verify dfyconfig.toml` checks all of it.

## What is modelled

**Template store.** A face template becomes a header, the embedding bytes, an FNV-1a checksum and a
MAC (`TemplateSerializer`, `Checksum`). The image is encrypted through a streaming key service
(`KeyMintService`, `CryptoClient`), written to a temporary file, renamed to one of two names
(`FileNames`, `FaceStorageManager`), and found again by a load with a fallback or by a directory scan
that cleans up. `TemplateDisk` says what a disk means: the answer of a load for every (user, face);
`DirectoryScan` what a scan does to it, entry by entry, with a key service that may fail at any of them;
`PlaintextFallback` how long a template saved without encryption stays.
`StoreRuns` proves that any run of operations on that layout, with crashes and with a failing key
service, is a run of one abstract map, and `StoreOnKeyMint` that the key service's client provides the
laws the store needs, also while keys are being generated. On top, `FaceStorageCallbacks` converts
embeddings and `FaceEngineStub` keeps its cache of enrolled faces equal to the disk. `KeyRaces` and
`EngineRaces` say what is left of that when several callers use a key for the first time, or several
sessions use the engine, at once.

**Camera.** `CameraBackend` is one `start` or `stop` with every way it can fail. `CameraProtocol` is
the same backend as a state machine: a step is what one thread does while it holds the lock, or a
native release or a read of the failure code made without it, so any number of callers, error callbacks
and deferred teardowns interleave; a `start` that opens the camera holds the lock over two steps.
`CameraHandles` keeps the accounts of native handles for both, and `CameraCalls` says what every call has
achieved by the time it returns.

**Session.** `FramePipeline` has one step for each atomic read or write of a session's camera threads,
detached workers, operations and cancellations, and `SessionRuns` says what each of them does from start to
end and where every event and flag comes from. `CallbackQueue` is the queue between a session and the
worker that delivers its callbacks, as an object and under every interleaving.

**Frames.** `ImagePacking` packs an image with arbitrary plane strides into NV21, `FrameScaling` fits
and downscales it, `CameraFrames` joins the two, and `Nv21` says what an NV21 buffer means.

`Bytes`, `Strings` and `Wrappers` hold bytes and 32-bit words, substring search, and `Option`.

## What the model assumes

- A write puts the whole content into the file or the open fails (`saveTemplate` does not check the
  result of `write`); a crash may leave any content in the temporary file. A rename is atomic. The
  removal of a stale file by a save may fail; other removals succeed.
- The key service may refuse or fail any call, differently at each entry of a scan.
- The MAC is a function of the data that gives 32 bytes, or nothing when it fails. Without a key
  service the MAC fails too, so a save fails; the plaintext fallback is reached only when encryption
  fails and the MAC works.
- Keystream, tag and HMAC are arbitrary functions. A "key not found" refusal of the key service is
  honest, and generating a key under a used name would replace it. GCM is that of sections 7.1 and
  7.2 of NIST SP 800-38D, FNV-1a that of section 2 of draft-eastlake-fnv.
- The target is little-endian, and `sscanf` with `%d` reads a saturating 64-bit integer and keeps its
  low 32 bits.
- A native camera call that fails yields no handle, and a native release returns; one thread delivers
  frames; every sample of an image plane lies in the memory the driver gives for it.
- Scale factors and aspect ratios are exact rationals where the code uses `float` and `double`.
- The template version accepted by `deserialize` is the one that the save callback writes.

## Where the code falls short of a promise

Each of these is proved, with the exact condition or a run that shows it.

- A save whose clean-up of the old encrypted file fails reports success, and takes effect only if no
  other template loads from that file (`SaveTemplate`, `SaveWithoutCleanupTakesEffectIff`,
  `StaleFileCanHideSave`).
- A scan during which the key service fails removes for good the templates that did not load for it
  (`LookupAfterScan`, `TemplateSurvivesScanIff`, `ScanCanLoseATemplate`). When it recovers between the
  two entries of a face, the scan removes the encrypted one and brings an older plaintext template back
  (`ReturnedFaceKeepsItsAnswerIff`, `ScanCanRevertATemplate`).
- A load with such a service can leave the engine's cache out of step with the disk, when an old plaintext
  template is returned while the encrypted one stays (`LoadedAgreesWithDiskIff`, `ReturnedIsOnDiskIff`).
- Two first MACs, or two first encryptions for one user, at the same time can each generate the key; the
  second replaces the first and what was made under that cannot be opened again
  (`ResultStaysOpenIff`, `LostResultsStayLost`, `FirstResultCanBeLost`). MACs overlap because loads
  verify them without a lock. The stub encrypts only in `enroll`, under its lock, so first encryptions
  overlap only with an engine that encrypts elsewhere.
- Restoring and deleting touch the disk before they take the engine's lock. When a session is created
  while another one enrolls, the cache can lose the new face and the next enrollment is given its id
  again, over the stored template (`EnrollmentOverwritesIff`, `EnrollmentCanOverwrite`; for cache and
  disk in general `CacheEqualsDiskIff`, `OutOfStepMeansOvertaken`).
- A crash while a template of another version is saved can uncover an older plaintext template
  (`SaveIsCrashAtomicIff`, `CrashCanUncoverAnOldTemplate`); the save callback writes no other version.
- An embedding of 2^32 bytes or more is saved and accepted but comes back truncated
  (`EmbeddingSurvivesIffItFits`, `OversizedEmbeddingIsLost`, `FaceStorageCallbacks.SaveTemplate`).
- A face with id -1 can be saved and loaded, but the scan skips it (`ScanRecoversName`).
- An entry whose number does not fit 32 bits is taken for a face (`LongNumberStandsForFace`); the scan then
  loads that face's own files, and removes the entry if they do not load.
- A `stop` from the frame callback deadlocks with a `stop` from another thread
  (`StopIsStuckIffCallbackWaits`, `StuckStopsNeverEnd`, `CallbackCanWaitForStop`). No frame callback in
  this repository calls `stop` or `start`: the session hands frames to a detached worker, and
  `IVisionService.onFrame` is oneway.
- The caller of a failed `start` reads the failure code without the lock, and reads 0 exactly when
  another `start` has entered meanwhile and has not failed yet; no `start` need ever succeed
  (`CodeReadsZeroIffStartIntervenes`, `FailureCodeCanBeLost`).
- A teardown frees the output target before the capture request it was added to; every other handle
  goes before those it refers to (`OrderRespectsUseExceptTarget`, `ReleasesRespectUseExceptTarget`).
- One frame result can still be posted after `cancel` has returned, exactly when a worker has read a set flag
  and not posted yet, or is still to read one that is set or that an operation under way is about to set
  (`ResultCanFollowCancelIff`, `OneResultCanFollowCancel`).
- The luma row loop ignores the pixel stride (`TightLumaIsRightIff`).
- The fit of a very narrow frame has no pixels (`FitVanishesIff`, `NarrowFrameVanishes`).
- The repository's README.md (line 135) says that fallback files are re-encrypted and wiped once the key
  service is back and a new session starts. No operation re-encrypts a file. A plaintext file goes only with
  an encrypted save of the same face, its deletion, the removal of its user, or a scan that meets it before
  the face has loaded (`PlaintextAfterOp`, `PlaintextOnDiskIff`, `FallbackOutlivesRecovery`).

## Model

| member | source | states |
|---|---|---|
| Checksum.CalculateChecksum | default/FaceTemplateSerializer.cpp:150-158 | The loop computes the checksum that the next two rows characterise. |
| Checksum.XorsBeforeMultiplying | default/FaceTemplateSerializer.cpp:150-158 | The checksum of nothing is 2166136261, and one more byte is xored in before the multiplication by 16777619 modulo 2^32. |
| Checksum.KnownValue | default/FaceTemplateSerializer.cpp:150-158 | The published FNV-1a value of the letter "a", 0xe40c292c. |
| Bytes.XorIsBitwise | default/FaceTemplateSerializer.cpp:153-154 | Every bit of the exclusive or is set exactly when the bits at its place differ. |
| Checksum.ScrambleUndoes | default/FaceTemplateSerializer.cpp:150-158 | Multiplying by the FNV prime modulo 2^32 is undone by a fixed inverse. |
| Checksum.FoldInjectiveInHash | default/FaceTemplateSerializer.cpp:150-158 | Hashing the same bytes from two states gives equal states only if they were equal, for inputs of any length. |
| Checksum.CommonTailPreservesCollisions | default/FaceTemplateSerializer.cpp:150-158 | Two inputs with a common tail collide exactly when they collide without it. |
| Checksum.DetectsSingleByteChange | default/FaceTemplateSerializer.cpp:150-158 | Replacing one byte of an input of any length keeps the checksum if and only if the byte is the same. |
| TemplateSerializer.Serialize | default/FaceTemplateSerializer.cpp:29-75 | The in-place buffer writes produce header, embedding (as many bytes as the 32-bit size counts), checksum and MAC in this order, and nothing when the MAC fails. |
| TemplateSerializer.Deserialize | default/FaceTemplateSerializer.cpp:77-148 | Accepts exactly what parses, including all size, version, checksum and MAC rejections, and on success has replaced every field of the out parameter, whatever it held. |
| TemplateSerializer.ImageLayout | default/FaceTemplateSerializer.cpp:29-75 | Where each field of a file lies, byte by byte: little-endian version, ids and size, the embedding, the checksum of all before it, the MAC of all before that. |
| TemplateSerializer.ParseOfSerialized | default/FaceTemplateSerializer.cpp:29-148 | What was written reads back as the same template, and another version is rejected. |
| TemplateSerializer.SerializedOfParse | default/FaceTemplateSerializer.cpp:29-148 | Writing what was read reproduces the file byte for byte. |
| TemplateSerializer.AcceptsExactlyTheImages | default/FaceTemplateSerializer.cpp:77-148 | A byte string is accepted if and only if it is the image of some current-version template. |
| TemplateSerializer.EmbeddingSurvivesIffItFits | default/FaceTemplateSerializer.cpp:30-56 | The embedding comes back whole exactly when its length fits the 32-bit size field. |
| TemplateSerializer.OversizedEmbeddingIsLost | default/FaceTemplateSerializer.cpp:30-56 | A concrete embedding of 2^32 bytes is accepted and comes back empty. |
| TemplateSerializer.ChangedByteBreaksChecksum | default/FaceTemplateSerializer.cpp:77-148 | Changing any byte before the MAC (header, embedding or checksum) is rejected under every MAC. |
| TemplateSerializer.ResigningDoesNotHideAChangedByte | default/FaceTemplateSerializer.cpp:77-148 | It is rejected even when the MAC is recomputed over the changed bytes. |
| FileNames.ScanRecoversPrinted | default/FaceStorageManager.cpp:187-190 | The scan's decimal parse recovers every printed 32-bit integer, whatever non-digit follows. |
| FileNames.ScanReadsLeadingNumber | default/FaceStorageManager.cpp:187-190 | Of any entry, blanks, a sign and digits are read, and what follows is ignored. |
| FileNames.NarrowingSaturatesThenWraps | default/FaceStorageManager.cpp:187-190 | A number is brought into 64 bits and its low 32 bits are the id. |
| FileNames.LongNumberStandsForFace | default/FaceStorageManager.cpp:187-190 | So an entry with a longer number stands for every face id that agrees with it in the low 32 bits. |
| FileNames.PrintedNumbers | default/FaceStorageManager.cpp:54-70 | Zero and a negative number as they are printed into a name. |
| FileNames.FullPaths | default/FaceStorageManager.cpp:54-70 | The three paths of a pair, written out. |
| FileNames.PathsAreDistinct | default/FaceStorageManager.cpp:54-70 | Distinct (user, face, variant) triples, temporaries included, have distinct path strings. |
| FileNames.ScanRecoversName | default/FaceStorageManager.cpp:182-190 | For every stored name the scan recovers id and variant, and skips exactly the id -1. |
| TemplateDisk.FilesAreSeparate | default/FaceStorageManager.cpp:54-70 | No file or temporary of one (user, face) pair is a file of another, and the two variants never share a file. |
| TemplateDisk.TempIsInvisible | default/FaceStorageManager.cpp:86-131 | Whatever is left in a temporary file, no load notices it. |
| TemplateDisk.SavingLeavesOthersAlone | default/FaceStorageManager.cpp:86-131 | A save, complete or cut after the rename, changes no other pair's answer. |
| TemplateDisk.LookupAfterRename | default/FaceStorageManager.cpp:86-170 | What a load answers between the rename and the clean-up, for every template and both kinds of file. |
| TemplateDisk.LookupAfterSave | default/FaceStorageManager.cpp:86-170 | After a save the pair loads the saved template and exactly one of its two files exists; saving another version makes the pair load nothing. |
| TemplateDisk.SaveIsCrashAtomicIff | default/FaceStorageManager.cpp:86-131 | Cut after any step, encrypted or fallback, every load gives its previous answer or the saved one and other pairs are unchanged: for every template of the current version, and for another version if and only if the rename uncovers no old plaintext template. |
| TemplateDisk.EverySaveStageIsOldOrNew | default/FaceStorageManager.cpp:86-131 | The same for one disk that the save's own step list passes through. |
| TemplateDisk.CrashCanUncoverAnOldTemplate | default/FaceStorageManager.cpp:86-131 | For every user and face, a disk and a template of another version for which the rename is not atomic. |
| TemplateDisk.SaveWithoutCleanupTakesEffectIff | default/FaceStorageManager.cpp:125-130 | If the stale file stays, the save has taken effect if and only if no other template is readable in it, or it is hidden by the encrypted file just written. |
| TemplateDisk.StaleFileCanHideSave | default/FaceStorageManager.cpp:125-130 | A disk and a template for which a reported save has no effect. |
| TemplateDisk.LookupAfterDelete | default/FaceStorageManager.cpp:210-240 | A delete forgets its own pair and no other, also when it removes the user's directory. |
| TemplateDisk.LookupAfterRemoveUser | default/FaceStorageManager.cpp:242-251 | Removing a user forgets all and only that user's pairs. |
| TemplateDisk.RemovingDoomedKeepsAnswers | default/FaceStorageManager.cpp:192-204 | Removing any set of entries whose parsed id does not load changes no answer. |
| TemplateDisk.CleaningForgetsExactlyWhatDidNotLoad | default/FaceStorageManager.cpp:172-208 | With one state of the key service during the scan and any other afterwards, the scan forgets exactly the faces of the user that did not load for it, and no other answer changes. |
| TemplateDisk.TemplateSurvivesScanIff | default/FaceStorageManager.cpp:192-204 | A loadable template survives a scan if and only if the scan could load it, or its id is -1. |
| TemplateDisk.ScanCanLoseATemplate | default/FaceStorageManager.cpp:192-204 | A disk on which a scan with the key service down loses a good template. |
| TemplateDisk.CleaningKeepsAnswers | default/FaceStorageManager.cpp:172-208 | With the key service answering alike during and after the scan, the clean-up changes no answer of any user. |
| TemplateDisk.ScanFindsExactlyTheLoadable | default/FaceStorageManager.cpp:172-208 | The scan returns a face if and only if it loads and is not -1, with the load's value. |
| TemplateDisk.ScanIsIdempotent | default/FaceStorageManager.cpp:172-208 | A second scan returns the same templates and removes nothing. |
| FaceStorageManager.FaceStorageManager.WriteAndRename | default/FaceStorageManager.cpp:105-131 | Succeeds exactly when open and rename do, whether or not the stale file could be removed, with the whole new disk, and passes only through the listed stages. |
| FaceStorageManager.FaceStorageManager.SaveTemplate | default/FaceStorageManager.cpp:86-131 | Succeeds exactly when MAC, open and rename do, leaving the saved disk, or that with the stale file when its removal fails; a failed save leaves the old disk without the temporary, and every intermediate disk is a stage of that save. |
| FaceStorageManager.FaceStorageManager.LoadTemplate | default/FaceStorageManager.cpp:133-170 | With any behaviour of the key service, returns what the pair's files hold for it; a successful result comes entirely from the accepted file, also after a rejected first file has partly filled the out parameter. |
| DirectoryScan.LookupAfterScan | default/FaceStorageManager.cpp:172-208 | What every load answers after a scan during which the key service may fail differently at each entry. |
| DirectoryScan.ReturnedFaceKeepsItsAnswerIff | default/FaceStorageManager.cpp:192-204 | A returned face keeps its answer if and only if its encrypted file was not removed before it loaded, or its plaintext file holds the same template. |
| DirectoryScan.ReturnedIsOnDiskIff | default/FaceStorageManager.cpp:192-204 | What was returned is what the face answers afterwards if and only if its encrypted file was lost on the way or holds nothing else. |
| DirectoryScan.ScanCanRevertATemplate | default/FaceStorageManager.cpp:192-204 | For every user and face, a disk on which a recovering service makes a scan bring an older template back. |
| DirectoryScan.SteadyScanIgnoresOrder | default/FaceStorageManager.cpp:172-208 | With a key service that answers alike throughout, the result and the removed entries do not depend on the order. |
| FaceStorageManager.FaceStorageManager.LoadAllTemplatesForUser | default/FaceStorageManager.cpp:172-208 | For every order of the entries and every behaviour of the key service at each, returns each face once with its first successful load and removes exactly the entries at which an attempt failed; with a working service, exactly the loadable faces come back and exactly the entries that do not load go. |
| FaceStorageManager.FaceStorageManager.DeleteTemplate | default/FaceStorageManager.cpp:210-240 | Removes exactly the two files of the pair while another template name is left in the directory of the user, and otherwise every file of that directory and no other file. |
| FaceStorageManager.FaceStorageManager.RemoveUser | default/FaceStorageManager.cpp:242-251 | Afterwards the directory of the user has no file, and every other file is as it was. |
| StoreRuns.StepRefines | default/FaceStorageManager.cpp:86-251 | Every operation on the two-file layout is the corresponding operation on a map from (user, face), with the same reply. |
| StoreRuns.MeaningIsUnique | default/FaceStorageManager.cpp:133-170 | A disk represents exactly one such map. |
| StoreRuns.EveryRunRefines | default/FaceStorageManager.cpp:86-251 | Any run of saves, cut saves, loads, deletes, scans, user removals and key changes from any disk, with a key service that may fail during any of them and at any entry of a scan, has the replies and the final meaning of the same run on the map; a scan under a failing service loses exactly the faces it does not list and leaves the others as they were or as listed. |
| PlaintextFallback.PlaintextAfterOp | default/FaceStorageManager.cpp:86-251 | After any operation a face has a plaintext file if and only if the operation wrote it, or it was there and the operation is none of those that remove it. |
| PlaintextFallback.PlaintextOnDiskIff | default/FaceStorageManager.cpp:86-251 | Over any run, it has one at the end if and only if it had one, or one was written, and nothing after that removes it. |
| PlaintextFallback.FallbackOutlivesRecovery | default/FaceStorageManager.cpp:97-103 | For every user and face, a run in which a template stays unencrypted although the service can encrypt again and a session has scanned the directory. |
| StoreRuns.KeysChangeKeepsAnswers | default/CryptoClient.cpp:235-272 | Further keys that keep the meaning of the files on disk change no answer. |
| FaceStorageCallbacks.WordsSurviveBytes | default/include/FaceStorageCallbacks.h:36-65 | An embedding converted to bytes and back is the same, word for word. |
| FaceStorageCallbacks.EmbeddingsAnswerByFace | default/include/FaceStorageCallbacks.h:49-65 | What loading returns, and what it deletes for its size, is decided face by face by what that face loads. |
| FaceStorageCallbacks.LoadedVersionIsCurrent | default/include/FaceStorageCallbacks.h:53-60 | The version test of the load callback never fires, whatever the key service does. |
| FaceStorageCallbacks.DroppingWrongSized | default/include/FaceStorageCallbacks.h:53-60 | Deleting the wrong-sized templates leaves what loading returns unchanged and nothing wrong-sized behind. |
| FaceStorageCallbacks.FaceStorageCallbacks.SaveTemplate | default/include/FaceStorageCallbacks.h:36-44 | Succeeds exactly when MAC, open and rename do. A failed save changes no answer and a successful one no other; what it saved then loads word for word, up to the size field, unless the stale file stays and loads. |
| FaceStorageCallbacks.FaceStorageCallbacks.LoadTemplates | default/include/FaceStorageCallbacks.h:49-65 | Returns exactly the 512-float embeddings that the scan found, forgets exactly the other templates it found, and sets the re-enrollment code exactly when there was one; with a working service those are the stored ones, and nothing else is forgotten. |
| FaceStorageCallbacks.LoadedAgreesWithDiskIff | default/include/FaceStorageCallbacks.h:49-65 | With any behaviour of the key service, what a load returned is what the next load with a working one would, if and only if every returned embedding is what its face's files hold after the scan. |
| FaceEngineStub.SavedEmbeddingAppears | lib/FaceEngineStub.cpp:110-152 | A fresh saved embedding adds exactly its own entry to what loading returns. |
| FaceEngineStub.FaceEngine.RestoreEnrollments | lib/FaceEngineStub.cpp:190-205 | The cache becomes what the load returned; it is in step with the disk if and only if every cached embedding is what its face's files hold, and so whenever the key service works. |
| FaceEngineStub.FaceEngine.NextFaceId | lib/FaceEngineStub.cpp:126-133 | The issued id is positive, larger than every enrolled id, and the least such. |
| FaceEngineStub.FaceEngine.Enroll | lib/FaceEngineStub.cpp:110-152 | Every fifth frame issues the least positive id above those enrolled, which no template of the user has, and enrolls it exactly when its save can succeed; cache and disk change together or not at all, and no other pair changes. |
| FaceEngineStub.FaceEngine.DeleteEnrollment | lib/FaceEngineStub.cpp:164-174 | Cache and disk forget that face and nothing else. |
| FaceEngineStub.FaceEngine.GetEnrolledFaceIds | lib/FaceEngineStub.cpp:181-188 | The ids in ascending order are exactly the faces that load from disk. |
| FaceEngineStub.FaceEngine.Authenticate | lib/FaceEngineStub.cpp:88-108 | Matches exactly when a face of the user loads from disk, with the smallest such id. |
| FaceEngineStub.FaceEngine.Run | lib/FaceEngineStub.cpp:110-221 | Over any run of calls for the last restored user, one after the other, the cache stays equal to the disk and only positive ids are issued, until ids run out; no save overwrites a template, and none is lost but those removed on request or wrong-sized. |
| EngineRaces.CacheIsDiskAsOfMoment | lib/FaceEngineStub.cpp:110-205 | With overlapping calls, every cache entry is the disk entry as it was just after the disk part of the call that last wrote it. |
| EngineRaces.CacheEqualsDiskIff | lib/FaceEngineStub.cpp:110-205 | Cache and disk are equal if and only if no face's disk entry differs from what it was at that moment. |
| EngineRaces.OutOfStepMeansOvertaken | lib/FaceEngineStub.cpp:164-205 | When nothing is in progress and they disagree about a face, the call that last wrote its cache entry was a restore or a delete, and between its two parts the face was saved or wiped by another. |
| EngineRaces.EnrollmentOverwritesIff | lib/FaceEngineStub.cpp:122-141 | An enrollment saves over a stored template if and only if the disk entry of the issued id has changed since the moment that the cache's entry reflects. |
| EngineRaces.EnrollmentCanOverwrite | default/Session.cpp:50-59 | An execution after which the next enrollment is given the id of a stored template. |
| KeyMintService.GcmOpenInvertsGcm | default/CryptoClient.cpp:392-453 | Authenticated decryption accepts exactly the encryptions and inverts them. |
| KeyMintService.TagCoversCiphertext | default/CryptoClient.cpp:353-389 | An encryption is the plaintext xored with the keystream, followed by the tag of that ciphertext. |
| KeyMintService.MessagesAreUnderstood | default/CryptoClient.cpp:174-183 | Every refusal with one of the known texts in it is understood as a missing or an existing key. |
| CryptoClient.FramingIsExact | default/CryptoClient.cpp:132-172 | A payload parses to a nonce and a ciphertext if and only if it is their framing. |
| CryptoClient.PayloadLayout | default/CryptoClient.cpp:132-172 | The payloads are exactly the strings of a byte 1, a length from 1 to 32, a nonce of that length and at least one byte, which divide so. |
| CryptoClient.SealedPayloadOpens | default/CryptoClient.cpp:313-453 | A framed encryption with a nonce of 1 to 32 bytes opens to what was encrypted. |
| CryptoClient.CryptoClient.Stream | default/CryptoClient.cpp:353-383 | The 4096-byte chunk loop feeds the input once and in order: the collected output is the operation's whole output, or nothing if any step fails. |
| CryptoClient.CryptoClient.Encrypt | default/CryptoClient.cpp:313-390 | Every payload ever issued keeps opening to its data; a key is generated only for this user and only when missing; a working service always yields a payload. |
| CryptoClient.CryptoClient.Decrypt | default/CryptoClient.cpp:392-453 | An issued payload gives back exactly its data or nothing, and with a working service its data. |
| CryptoClient.CryptoClient.SignWithHmacKey | default/CryptoClient.cpp:482-544 | The result is the MAC of the whole data under the key, or nothing; an existing key is never replaced. |
| CryptoClient.CryptoClient.VerifyMac | default/CryptoClient.cpp:463-480 | Accepts only the MAC of the data, and with a working service and a key exactly that. |
| KeyRaces.ResultStaysOpenIff | default/CryptoClient.cpp:313-350 | A payload or MAC can be opened in every continuation of any interleaving if and only if it can be now and no caller is between being told that the key is missing and generating it. |
| KeyRaces.LostResultsStayLost | default/CryptoClient.cpp:313-350 | One that cannot be opened never can be again. |
| KeyRaces.RunsWithoutRaceLoseNothing | default/CryptoClient.cpp:313-350 | If no two callers are told at once that the key is missing, every result can be opened. |
| KeyRaces.FirstResultCanBeLost | default/CryptoClient.cpp:313-350 | A run of two first callers in which the first one's result is lost. |
| StoreOnKeyMint.NewKeysKeepMeaning | default/CryptoClient.cpp:235-272 | Generating missing keys keeps the meaning of every file on disk, if no user without a key has encrypted files or the new keys do not open them. |
| StoreOnKeyMint.EveryKeyedRunRefines | default/CryptoClient.cpp:235-350 | Any run of operations and key generations under the client's guarantees, from any disk, is one of the abstract map; if only users with a key have encrypted files at the start, it stays so. |
| StoreOnKeyMint.RemovingKeepsKeyedFiles | default/FaceStorageManager.cpp:172-251 | Deletes, scans and removals keep that only users with a key have encrypted files. |
| StoreOnKeyMint.SavingKeepsKeyedFiles | default/FaceStorageManager.cpp:86-131 | So does every stage of a save whose payload was sealed under the user's key. |
| StoreOnKeyMint.NewKeysChangeNothing | default/CryptoClient.cpp:482-506 | Generating storage keys, and the first MAC key, changes no answer of a pair that had the keys its files were made with, or has no such files, or whose files the new key does not open. |
| StoreOnKeyMint.SaveThroughClient | default/FaceStorageManager.cpp:86-131 | On any disk and with any keys, missing ones included, signing and encrypting through the client changes the saved pair's answer or nothing, whatever of it fails, and with a working service leaves the encrypted file. |
| CameraHandles.AcquiringKeepsAccounts | default/Camera2NdkBackend.cpp:382-574 | Storing a new handle keeps every handle owned once or released once. |
| CameraHandles.FreeingKeepsAccounts | default/Camera2NdkBackend.cpp:436-471 | Releasing a held handle and clearing its field keeps it so. |
| CameraHandles.ReleasingOneMore | default/Camera2NdkBackend.cpp:607-664 | Releasing one more of the handles taken over keeps the count of each at one exactly when it has left. |
| CameraHandles.OrderRespectsUseExceptTarget | default/Camera2NdkBackend.cpp:625-659 | The release order puts a handle before each one it was made from or was given, except the output target, which goes before the request it was added to. |
| CameraBackend.FailureCodesAreSpecific | default/Camera2NdkBackend.cpp:372-575 | A failed start has a code from 50 to 58, never 0. |
| CameraBackend.CodesNameTheirStages | default/Camera2NdkBackend.cpp:382-574 | Each of the codes 50 to 58, and success, if and only if its own native calls fail and those before them do not. |
| CameraBackend.Camera2NdkBackend.Teardown | default/Camera2NdkBackend.cpp:607-664 | Releases each held handle once and no other, and leaves every field null. |
| CameraBackend.Camera2NdkBackend.OpenLoop | default/Camera2NdkBackend.cpp:436-497 | The open loop ends, opens at most twice, retries exactly when a cached id fails to open, then forgets that id and takes the one probed afresh, leaks nothing on any exit and reports the stage that failed. |
| CameraBackend.Camera2NdkBackend.OpenCamera | default/Camera2NdkBackend.cpp:382-497 | The same with the manager and the choice of the camera before it: the cached id if there is one, and else the one a probe selects. |
| CameraBackend.Camera2NdkBackend.StartStreaming | default/Camera2NdkBackend.cpp:500-574 | Every exit after the open has the code of its stage and all handles accounted for. |
| CameraBackend.Camera2NdkBackend.Start | default/Camera2NdkBackend.cpp:372-575 | At most two opens, of the cached, the selected or the freshly probed id; on failure every acquired handle has been released exactly once, all fields are null and the code is that of the failed stage; on success all eight handles are held. |
| CameraBackend.Camera2NdkBackend.Stop | default/Camera2NdkBackend.cpp:577-605 | Releases every handle of the running session once and no other. |
| CameraProtocol.StartLockedGivesOutcome | default/Camera2NdkBackend.cpp:380-575 | Whatever the native calls of one `start` answer, it ends in one of the ways the interleavings are proved for. |
| CameraProtocol.EveryStepKeepsInv | default/Camera2NdkBackend.cpp:372-796 | Every step of every thread keeps the handle accounts, the meaning of the flags, the lock held by an opening `start`, the release order and the callback guard; what the calls achieve is in CameraCalls. |
| CameraProtocol.EveryReachableStateKeepsInv | default/Camera2NdkBackend.cpp:372-796 | They hold in every state of every execution. |
| CameraProtocol.HandlesAreReleasedExactlyOnce | default/Camera2NdkBackend.cpp:372-664 | In every interleaving a handle has exactly one owner and no release, or no owner and one release; when all is quiet every handle has been released once. |
| CameraProtocol.FlagsTellTheHandles | default/Camera2NdkBackend.cpp:372-664 | With the lock free, running means all handles present and not stopping, and idle means none. |
| CameraProtocol.CallbackKeepsItsHandles | default/Camera2NdkBackend.cpp:715-732 | While the user's frame callback runs, the handles it started with stay in place unreleased, also when it calls `stop` itself. |
| CameraProtocol.ReleasesRespectUseExceptTarget | default/Camera2NdkBackend.cpp:607-664 | A teardown releases a handle while one that refers to it is still to be released if and only if they are the target and its request. |
| CameraProtocol.StopIsStuckIffCallbackWaits | default/Camera2NdkBackend.cpp:577-605 | A stop in progress has no step left to advance it if and only if the frame callback itself waits for it. |
| CameraProtocol.AdvancingLowersWork | default/Camera2NdkBackend.cpp:577-664 | No step adds to what is left of a stop, and each step that advances it takes something away. |
| CameraProtocol.StopEndsAfterItsWork | default/Camera2NdkBackend.cpp:577-664 | In every execution a stop ends after at most 21 steps that advance it. |
| CameraProtocol.StuckStopsNeverEnd | default/Camera2NdkBackend.cpp:577-605 | Once the frame callback waits for the stop, no continuation of the execution ends it. |
| CameraProtocol.CallbackCanWaitForStop | default/Camera2NdkBackend.cpp:577-605 | An execution that reaches it. |
| CameraProtocol.CodeReadsZeroIffStartIntervenes | default/Session.cpp:344-352 | After a failed `start`, a caller's unlocked read gives 0, so that its own default replaces the code, if and only if another `start` has entered since and none has failed after that; otherwise it gives the specific code of the last failure. |
| CameraProtocol.FailureCodeCanBeLost | default/Camera2NdkBackend.cpp:372-380 | An execution in which the caller reads 0 although no `start` ever succeeds. |
| CameraCalls.StopTakesEffect | default/Camera2NdkBackend.cpp:577-605 | In every interleaving a `stop`, also one from an error callback or from the frame callback, stops the camera at once, and whenever no stop is in progress afterwards every handle that was there has been released once. |
| CameraCalls.StoppersReturnAfterTheRelease | default/Camera2NdkBackend.cpp:735-796 | A thread other than the frame callback that calls `stop`, and every disconnect, error or session-closed callback that finds the camera running, returns only once every handle of the session it came upon has been released once. |
| CameraCalls.StartReturnsRunningOrReleased | default/Camera2NdkBackend.cpp:372-575 | Every `start` returns with the camera running, or after an attempt of its own has failed and all its handles have been released once, however long it waited and whatever came between. |
| CameraCalls.CallsTakeFewSteps | default/Camera2NdkBackend.cpp:372-796 | Every call of any thread is over after at most 11 steps of its own beyond its first. |
| CameraCalls.OnlyTheCallbackBlocks | default/Camera2NdkBackend.cpp:372-796 | While a call is in progress some call or the frame callback can go on, unless that callback waits for the stop that waits for it. |
| CameraCalls.FrameIsDeliveredIff | default/Camera2NdkBackend.cpp:674-732 | A frame reaches the user callback if and only if the camera is running at both checks, at the second perhaps in a later session. |
| FramePipeline.EveryStepKeepsTheGate | default/Session.cpp:154-297 | Every step keeps the processing flag set exactly while one thread is between the compare-and-swap and the clear. |
| FramePipeline.GateIsExclusive | default/Session.cpp:154-297 | In every interleaving at most one thread is there. |
| FramePipeline.AtMostOneResultAfterCancel | default/Session.cpp:101-114 | While the cancel flag stays set, at most one more frame result is posted, in every interleaving of frames, workers, operations and cancellations. |
| FramePipeline.ResultCanFollowCancelIff | default/Session.cpp:101-294 | From a cancelled state a frame result can be posted in some continuation that stays cancelled if and only if a worker is past its read of a set flag, or still to read the flag of a mode that is set or about to be set. |
| FramePipeline.OneResultCanFollowCancel | default/Session.cpp:215-294 | A reachable state in which that one result is posted after `cancel` has returned. |
| FramePipeline.SuccessesNeverOutnumberOperations | default/Session.cpp:215-294 | In every interleaving the successes posted for a mode never outnumber the operations of that mode that were started. |
| SessionRuns.EventsAnswerCauses | default/Session.cpp:101-426 | In every execution and for every event, its causes are as many as its posts and the threads on their way to one: a camera that does not start for a camera error, an answer of the engine for a result, a flag read as set by `cancel` for a cancellation error. |
| SessionRuns.FlagIsSetIff | default/Session.cpp:101-426 | The flag of a mode is set if and only if an operation has set it and no success, failed operation or `cancel` has taken it away since. |
| SessionRuns.CancelledIff | default/Session.cpp:101-114 | Frames are dropped as cancelled if and only if a `cancel` has ended and no operation has begun since. |
| SessionRuns.ProcessingIff | default/Session.cpp:154-297 | A frame is being processed if and only if a thread has won the gate and no worker has left since. |
| SessionRuns.OperationRuns | default/Session.cpp:326-426 | Enroll, authenticate and detectInteraction set their flag and start the camera. If it starts they do nothing more; if not, they take the flag away and then report the failure, and that is all. |
| SessionRuns.CancelRuns | default/Session.cpp:101-114 | In any interleaving `cancel` reports only if it has read a set flag and keeps quiet only if it has read each flag as unset; it takes every flag away and leaves the session cancelled. |
| SessionRuns.FrameRuns | default/Session.cpp:154-213 | A frame is dropped if the operation is cancelled or a frame is being processed, and else handed to a worker. |
| SessionRuns.WorkerRuns | default/Session.cpp:213-294 | A worker posts nothing if it finds the operation cancelled or no flag set; else it serves the first set mode in the order authentication, detection, enrollment, and posts what the answer calls for, a success after taking the flag away. |
| CallbackQueue.SessionCallbackQueue.PostCallback | default/Session.cpp:575-583 | Appends the callback while the queue is running and drops it afterwards. |
| CallbackQueue.SessionCallbackQueue.RunWorker | default/Session.cpp:67-84 | After a shutdown the worker calls what was queued, in order, and leaves with everything accepted delivered. |
| CallbackQueue.CallbacksArriveInOrder | default/Session.cpp:67-99 | In every interleaving the accepted callbacks are the posts before the shutdown, the delivered ones are a beginning of them, and all of them once the worker has left. |
| CallbackQueue.WorkerDrainsAndExits | default/Session.cpp:67-84 | After a shutdown the worker is never stuck and leaves after exactly the number of steps that the queue then called for. |
| Nv21.FrameKeepsLuma | default/Camera2NdkBackend.cpp:258-316 | The luma sample of a row and column is found at its position in the frame. |
| Nv21.FrameKeepsChroma | default/Camera2NdkBackend.cpp:258-316 | So are the V and U samples of each pair. |
| Nv21.FramesAreEqualIffSamplesAre | default/Camera2NdkBackend.cpp:258-316 | Two frames of one size are equal exactly when all their samples are. |
| Nv21.FrameOfItsSamples | default/Camera2NdkBackend.cpp:258-316 | With even dimensions, reading a frame's samples and writing them again gives the frame. |
| ImagePacking.PackLuma | default/Camera2NdkBackend.cpp:270-286 | The whole-plane copy and the row loop both put each luma sample at its position. |
| ImagePacking.PackChroma | default/Camera2NdkBackend.cpp:288-311 | The loops write V before U for every pair of every row, leave the bytes of odd dimensions zero, and do not touch luma. |
| ImagePacking.PackAImageToNv21 | default/Camera2NdkBackend.cpp:258-316 | For any dimensions and strides it stays in bounds, succeeds exactly when the image has dimensions and its planes, and gives the frame of the samples of the image with luma read as tight; byte by byte, every luma, V and U byte is the plane byte at row times row stride plus column (times pixel stride for chroma). |
| ImagePacking.PictureHoldsSamples | default/Camera2NdkBackend.cpp:258-316 | The frame of the image read as tight holds, at each position, that plane byte. |
| ImagePacking.PackingIgnoresStrides | default/Camera2NdkBackend.cpp:258-316 | Two images of one size give the same frame if and only if they show the same picture. |
| ImagePacking.TightLumaIsRightIff | default/Camera2NdkBackend.cpp:278-286 | Ignoring the luma pixel stride is right for every content exactly when it is 1 or there is one column. |
| FrameScaling.FitIsInsideTheBox | default/Session.cpp:183-207 | The fitted dimensions are even and no larger than the frame or the optimal resolution turned to its orientation. |
| FrameScaling.TargetIsLargest | default/Session.cpp:186-202 | Nothing of the frame's exact proportions that fits in the box is larger than the fit's target. |
| FrameScaling.TargetKeepsAspect | default/Session.cpp:186-202 | One side of the target is that of the optimal resolution turned to the orientation of the frame, and the other is its exact proportion rounded down. |
| FrameScaling.FitVanishesIff | default/Session.cpp:186-204 | The fit has no pixels exactly when the shorter optimal side is below two or the frame is so narrow that its shorter side shrinks below two. |
| FrameScaling.NarrowFrameVanishes | default/Session.cpp:186-204 | A frame size for which that happens. |
| FrameScaling.ChromaSourceIsInside | default/Session.cpp:135-147 | Chroma, scaled by the factor of the whole picture, is read inside the source's chroma plane. |
| FrameScaling.ChromaFollowsLuma | default/Session.cpp:118-148 | A chroma pair comes from the source block that contains the source of the block's first luma pixel. |
| FrameScaling.DownscaleNv21 | default/Session.cpp:118-150 | Reads in bounds; every luma byte is the source byte of the row and column on which it falls when scaled, and so are both bytes of every chroma pair, for empty and odd sizes too. |
| FrameScaling.SourceIsWhereItFalls | default/Session.cpp:127-147 | Scaling by the ratio of the sizes and truncating gives the one source index on whose interval the position falls. |
| FrameScaling.DownscaledIsScaled | default/Session.cpp:118-150 | The downscaled picture holds at each position the source byte on which it falls. |
| FrameScaling.PrepareFrame | default/Session.cpp:168-210 | The session hands on the frame unchanged if neither side is above the longer optimal side (1280 when the camera does not say), and else its scaled picture at even sides within the box and in the aspect of the frame, never larger. |
| FrameScaling.DownscalingAFrame | default/Session.cpp:118-150 | Packing a picture and downscaling the frame equals packing the scaled picture. |
| CameraFrames.WholePictureIsScaledByOne | default/Session.cpp:168-183 | An unscaled frame is its picture at scale one. |
| CameraFrames.FrameForEngine | default/Session.cpp:154-213 | From image to engine: each byte handed on is the image's sample at the scaled position. |

## Left out

- TemplateDisk.EverySaveStageIsOldOrNew: where the rename uncovers an old plaintext template it does not hold; SaveIsCrashAtomicIff says exactly when.
- StoreRuns.EveryRunRefines: a cut save in a run is one that is crash-atomic, as above.
- FaceEngineStub.FaceEngine.Enroll: only for the user last restored and while the largest 32-bit id is not enrolled, because the one cache is shared by all users and the next id would overflow.
- FaceEngineStub.FaceEngine.Run: one call after the other, restores with a working key service; overlapping calls are in EngineRaces, other restores in RestoreEnrollments.
- FaceEngineStub.FaceEngine.RestoreEnrollments: one call with nothing between its disk part and its cache part; what may come between is in EngineRaces.
- FaceEngineStub.FaceEngine.DeleteEnrollment: the same.
- EngineRaces.CacheEqualsDiskIff: one user, and each load, wipe and save of the disk is one step; the frame count, which is not locked either, is not part of it.
- CryptoClient.CryptoClient.Encrypt: one caller at a time; concurrent first uses of a key are in KeyRaces.
- KeyRaces.ResultStaysOpenIff: says which key a result was made under; that another key does not open it by chance is a matter of the cryptography.
- FrameScaling.PrepareFrame: does not model rounding of float and double scale factors, because they are taken as exact rationals.
- CallbackQueue.SessionCallbackQueue.RunWorker: is the loop once nothing else changes the queue; other interleavings are in CallbacksArriveInOrder.
- CameraCalls.StoppersReturnAfterTheRelease: not for a `stop` from the frame callback, which returns before its deputy has finished; StopTakesEffect covers it.
- CameraProtocol.StopIsStuckIffCallbackWaits: native releases are taken to return, the bounded wait for a closed session included, and threads to be scheduled.
- CameraFrames.FrameForEngine: does not cover a driver whose planes are shorter than their strides say.
- At most one terminal callback for an operation, and exclusion between the three operation flags: the code enforces neither.
- The frame's acquisition and packing before the second running check, during a concurrent teardown: the code does not protect it.
- `Session::onContextChanged`, challenges, features, display state and the mapping of acquired codes: short branches and table lookups.
- Selecting a camera and the optimal resolution from the device's stream configurations: its result is a parameter.
- Directory creation, permissions, `fsync` and logging: no effect on any answer modelled here.
- Binder, AIDL, NDK camera and key service internals: nondeterministic outcomes or arbitrary functions with the stated laws.
- The proprietary engines: the stub engine is modelled instead.
- The Kotlin app, overlays, resources, SELinux policy and build files: not part of this model.
