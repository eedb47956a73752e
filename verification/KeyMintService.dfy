/** The key service behind template encryption: AES-GCM and HMAC as streaming operations under
    named keys. */
module KeyMintService {
  import opened Wrappers
  import opened Bytes
  import opened Strings

  type Key = nat
  type Tag = s: seq<byte> | |s| == 16 witness seq(16, _ => 0)
  type Mac = s: seq<byte> | |s| == 32 witness seq(32, _ => 0)

  /** The cryptographic functions, about which nothing else is assumed: the keystream of a (key,
      nonce) pair, the authentication tag of a ciphertext, and the HMAC of a message. */
  datatype Primitives = Primitives(
    keystream: (Key, seq<byte>, nat) -> byte,
    tag: (Key, seq<byte>, seq<byte>) -> Tag,
    hmac: (Key, seq<byte>) -> Mac)

  /** GCTR of sections 7.1 and 7.2 of NIST SP 800-38D: xor with the keystream. */
  function Ctr(p: Primitives, k: Key, nonce: seq<byte>, data: seq<byte>): (out: seq<byte>)
    ensures |out| == |data|
  {
    seq<byte>(|data|, i requires 0 <= i < |data| => XorByte(data[i], p.keystream(k, nonce, i)))
  }

  /** Authenticated encryption: ciphertext followed by its tag. */
  function Gcm(p: Primitives, k: Key, nonce: seq<byte>, plain: seq<byte>): seq<byte> {
    var c := Ctr(p, k, nonce, plain);
    c + p.tag(k, nonce, c)
  }

  /** Authenticated decryption: the plaintext, or None when the tag does not match. */
  function GcmOpen(p: Primitives, k: Key, nonce: seq<byte>, sealed: seq<byte>): Option<seq<byte>> {
    if |sealed| < 16 then None
    else
      var c, t := sealed[..|sealed| - 16], sealed[|sealed| - 16..];
      if t == p.tag(k, nonce, c) then Some(Ctr(p, k, nonce, c)) else None
  }

  lemma CtrUndoes(p: Primitives, k: Key, nonce: seq<byte>, data: seq<byte>)
    ensures Ctr(p, k, nonce, Ctr(p, k, nonce, data)) == data
  {
    forall i | 0 <= i < |data|
      ensures XorByte(XorByte(data[i], p.keystream(k, nonce, i)), p.keystream(k, nonce, i)) == data[i]
    {
      XorUndoes(data[i], p.keystream(k, nonce, i));
    }
  }

  /** Decryption accepts exactly the encryptions, and inverts encryption. */
  lemma GcmOpenInvertsGcm(p: Primitives, k: Key, nonce: seq<byte>, sealed: seq<byte>, plain: seq<byte>)
    ensures GcmOpen(p, k, nonce, sealed) == Some(plain) <==> Gcm(p, k, nonce, plain) == sealed
  {
    CtrUndoes(p, k, nonce, plain);
    if GcmOpen(p, k, nonce, sealed) == Some(plain) {
      CtrUndoes(p, k, nonce, sealed[..|sealed| - 16]);
      assert sealed == sealed[..|sealed| - 16] + sealed[|sealed| - 16..];
    }
    var g := Gcm(p, k, nonce, plain);
    assert g[..|g| - 16] == Ctr(p, k, nonce, plain);
  }

  /** The tag covers the ciphertext, which is the plaintext xored byte by byte with the keystream. */
  lemma TagCoversCiphertext(p: Primitives, k: Key, nonce: seq<byte>, plain: seq<byte>)
    ensures var g, n := Gcm(p, k, nonce, plain), |plain|;
            && |g| == n + 16 && g[n..] == p.tag(k, nonce, g[..n])
            && forall i: nat :: i < n ==> g[i] == XorByte(plain[i], p.keystream(k, nonce, i))
  {
    var c := Ctr(p, k, nonce, plain);
    assert Gcm(p, k, nonce, plain)[..|plain|] == c;
  }

  /** Output already produced stays a prefix of the output for longer input. */
  lemma CtrGrows(p: Primitives, k: Key, nonce: seq<byte>, a: seq<byte>, b: seq<byte>)
    requires a <= b
    ensures Ctr(p, k, nonce, a) <= Ctr(p, k, nonce, b)
  {
  }

  datatype Status = Ok | Failed(message: string)
  datatype Purpose = Encrypt | Decrypt | Sign

  const KEY_NOT_FOUND := "KEY_NOT_FOUND"

  /** How a client reads a refusal's message. */
  predicate LooksKeyMissing(message: string) {
    || Contains(message, KEY_NOT_FOUND)
    || Contains(message, "Failed to load key blob")
    || Contains(message, "does not exist")
  }

  predicate LooksKeyAlreadyExists(message: string) {
    Contains(message, "KEY_ALREADY_EXISTS") || Contains(message, "already exists")
  }

  lemma KeyNotFoundLooksMissing()
    ensures LooksKeyMissing(KEY_NOT_FOUND)
  {
    assert OccursAt(KEY_NOT_FOUND, 0, KEY_NOT_FOUND);
  }

  /** Any message with one of these texts in it is understood. */
  lemma MessagesAreUnderstood(before: string, after: string)
    ensures LooksKeyMissing(before + "KEY_NOT_FOUND" + after)
    ensures LooksKeyMissing(before + "Failed to load key blob" + after)
    ensures LooksKeyMissing(before + "does not exist" + after)
    ensures LooksKeyAlreadyExists(before + "KEY_ALREADY_EXISTS" + after)
    ensures LooksKeyAlreadyExists(before + "already exists" + after)
  {
    ContainsBetween(before, "KEY_NOT_FOUND", after);
    ContainsBetween(before, "Failed to load key blob", after);
    ContainsBetween(before, "does not exist", after);
    ContainsBetween(before, "KEY_ALREADY_EXISTS", after);
    ContainsBetween(before, "already exists", after);
  }

  /** One streaming operation. It may hold output back, and a faulty service may fail it at any
      step; what a finished operation has produced in all depends only on what it was fed. */
  class Operation {
    const prims: Primitives
    const key: Key
    const purpose: Purpose
    const nonce: seq<byte>
    const faulty: bool
    ghost var fed: seq<byte>
    ghost var sent: seq<byte>
    var buffered: seq<byte>
    var emitted: nat

    constructor (prims: Primitives, key: Key, purpose: Purpose, nonce: seq<byte>, faulty: bool)
      ensures Valid() && fed == [] && sent == []
      ensures this.prims == prims && this.key == key && this.purpose == purpose
      ensures this.nonce == nonce && this.faulty == faulty
    {
      this.prims, this.key, this.purpose, this.nonce, this.faulty := prims, key, purpose, nonce, faulty;
      fed, sent, buffered, emitted := [], [], [], 0;
    }

    /** The output that the input so far allows before `Finish`. */
    function Available(input: seq<byte>): seq<byte> {
      match purpose
      case Encrypt => Ctr(prims, key, nonce, input)
      case Decrypt => Ctr(prims, key, nonce, if |input| < 16 then [] else input[..|input| - 16])
      case Sign => []
    }

    /** The whole output for a whole input, None when the operation refuses it. */
    function Output(input: seq<byte>): Option<seq<byte>> {
      match purpose
      case Encrypt => Some(Gcm(prims, key, nonce, input))
      case Decrypt => GcmOpen(prims, key, nonce, input)
      case Sign => Some(prims.hmac(key, input))
    }

    ghost predicate Valid()
      reads this
    {
      buffered == fed && emitted <= |Available(fed)| && sent == Available(fed)[..emitted]
    }

    method Update(chunk: seq<byte>) returns (status: Status, out: Option<seq<byte>>)
      requires Valid()
      modifies this
      ensures status.Ok? ==> Valid() && fed == old(fed) + chunk
      ensures status.Ok? ==> sent == old(sent) + (if out.Some? then out.value else [])
      ensures !faulty ==> status.Ok?
    {
      var fails: bool := *;
      if faulty && fails {
        return Failed("update"), None;
      }
      ghost var before := buffered;
      buffered := buffered + chunk;
      fed := buffered;
      CtrGrows(prims, key, nonce, before, buffered);
      CtrGrows(prims, key, nonce, if |before| < 16 then [] else before[..|before| - 16],
               if |buffered| < 16 then [] else buffered[..|buffered| - 16]);
      assert Available(before) <= Available(buffered);
      var upTo: nat :| emitted <= upTo <= |Available(buffered)|;
      var piece := Available(buffered)[emitted..upTo];
      sent := sent + piece;
      emitted := upTo;
      status, out := Ok, if piece == [] then None else Some(piece);
    }

    method Finish() returns (status: Status, out: Option<seq<byte>>)
      requires Valid()
      ensures status.Ok? ==> Output(fed) == Some(sent + (if out.Some? then out.value else []))
      ensures !faulty ==> (status.Ok? <==> Output(fed).Some?)
    {
      var fails: bool := *;
      var whole := Output(buffered);
      if (faulty && fails) || whole.None? {
        return Failed("finish"), None;
      }
      assert Available(buffered) <= whole.value;
      assert sent + whole.value[emitted..] == whole.value;
      return Ok, Some(whole.value[emitted..]);
    }
  }

  /** The key store. A faulty service may refuse any request; a "key not found" refusal is honest,
      and generating a key under a name that has one replaces it. */
  class KeyMint {
    const prims: Primitives
    const faulty: bool
    var storageKeys: map<i32, Key>
    var macKey: Option<Key>

    constructor (prims: Primitives, faulty: bool)
      ensures this.prims == prims && this.faulty == faulty && storageKeys == map[] && macKey == None
    {
      this.prims, this.faulty := prims, faulty;
      storageKeys, macKey := map[], None;
    }

    /** `createOperation` for the storage key of `userId`. On encryption the service picks the nonce
        and, unless faulty, reports it. */
    method CreateStorageOperation(userId: i32, purpose: Purpose, nonce: Option<seq<byte>>)
      returns (status: Status, op: Operation?, reported: Option<seq<byte>>)
      requires purpose in {Encrypt, Decrypt} && (purpose == Decrypt ==> nonce.Some?)
      ensures status.Ok? <==> op != null
      ensures op != null ==>
                && fresh(op) && op.Valid() && op.fed == [] && op.sent == [] && userId in storageKeys
                && op.prims == prims && op.key == storageKeys[userId] && op.purpose == purpose && op.faulty == faulty
                && (nonce.Some? ==> op.nonce == nonce.value)
                && (reported.Some? ==> reported.value == op.nonce)
                && (!faulty && nonce.None? ==> reported.Some? && |reported.value| == 12)
      ensures status.Failed? && LooksKeyMissing(status.message) ==> userId !in storageKeys
      ensures !faulty ==> (status.Ok? <==> userId in storageKeys)
      ensures !faulty && userId !in storageKeys ==> status == Failed(KEY_NOT_FOUND)
    {
      var fails: bool, message: string := *, *;
      if faulty && fails {
        if LooksKeyMissing(message) && userId in storageKeys {
          message := "";
        }
        return Failed(message), null, None;
      }
      if userId !in storageKeys {
        return Failed(KEY_NOT_FOUND), null, None;
      }
      var chosen: seq<byte> := *;
      if !faulty && |chosen| != 12 {
        chosen := seq<byte>(12, _ => 0);
      }
      if nonce.Some? {
        chosen := nonce.value;
      }
      op := new Operation(prims, storageKeys[userId], purpose, chosen, faulty);
      var silent: bool := *;
      status, reported := Ok, if faulty && silent then None else Some(chosen);
    }

    method CreateMacOperation() returns (status: Status, op: Operation?)
      ensures status.Ok? <==> op != null
      ensures op != null ==>
                && fresh(op) && op.Valid() && op.fed == [] && op.sent == [] && macKey.Some?
                && op.prims == prims && op.key == macKey.value && op.purpose == Sign && op.faulty == faulty
      ensures status.Failed? && LooksKeyMissing(status.message) ==> macKey.None?
      ensures !faulty ==> (status.Ok? <==> macKey.Some?)
      ensures !faulty && macKey.None? ==> status == Failed(KEY_NOT_FOUND)
    {
      var fails: bool, message: string := *, *;
      if faulty && fails {
        if LooksKeyMissing(message) && macKey.Some? {
          message := "";
        }
        return Failed(message), null;
      }
      if macKey.None? {
        return Failed(KEY_NOT_FOUND), null;
      }
      op := new Operation(prims, macKey.value, Sign, [], faulty);
      status := Ok;
    }

    method GenerateStorageKey(userId: i32) returns (status: Status)
      modifies this`storageKeys
      ensures status.Ok? ==> userId in storageKeys && storageKeys == old(storageKeys)[userId := storageKeys[userId]]
      ensures !status.Ok? ==> storageKeys == old(storageKeys)
      ensures !faulty ==> status.Ok?
    {
      var fails: bool, message: string, key: Key := *, *, *;
      if faulty && fails {
        return Failed(message);
      }
      storageKeys := storageKeys[userId := key];
      status := Ok;
    }

    method GenerateMacKey() returns (status: Status)
      modifies this`macKey
      ensures status.Ok? ==> macKey.Some?
      ensures !status.Ok? ==> macKey == old(macKey)
      ensures !faulty ==> status.Ok?
    {
      var fails: bool, message: string, key: Key := *, *, *;
      if faulty && fails {
        return Failed(message);
      }
      macKey := Some(key);
      status := Ok;
    }
  }
}
