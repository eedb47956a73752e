/** The HAL's client of the key service: payload framing, chunked streaming, and key generation on
    demand. */
module CryptoClient {
  import opened Wrappers
  import opened Bytes
  import opened KeyMintService

  const STORAGE_PAYLOAD_VERSION: byte := 1
  const MAX_NONCE_SIZE := 32
  const CHUNK_SIZE := 4096

  // ---------------------------------------------------------------- payload framing

  function SerializeStoragePayload(nonce: seq<byte>, ciphertext: seq<byte>): seq<byte> {
    if nonce == [] || |nonce| > MAX_NONCE_SIZE || ciphertext == [] then []
    else [STORAGE_PAYLOAD_VERSION, |nonce|] + nonce + ciphertext
  }

  function ParseStoragePayload(payload: seq<byte>): Option<(seq<byte>, seq<byte>)> {
    if |payload| < 3 || payload[0] != STORAGE_PAYLOAD_VERSION then None
    else
      var nonceLen: int := payload[1];
      if nonceLen == 0 || nonceLen > MAX_NONCE_SIZE || |payload| <= 2 + nonceLen then None
      else Some((payload[2..2 + nonceLen], payload[2 + nonceLen..]))
  }

  /** Parsing and framing are mutually inverse: exactly the framed pairs parse. */
  lemma FramingIsExact(payload: seq<byte>, nonce: seq<byte>, ciphertext: seq<byte>)
    ensures ParseStoragePayload(payload) == Some((nonce, ciphertext))
       <==> payload != [] && SerializeStoragePayload(nonce, ciphertext) == payload
  {
  }

  /** Which byte strings are payloads, and how they divide: a version byte 1, the nonce's length of 1 to 32, the
      nonce, and at least one byte of ciphertext. */
  lemma PayloadLayout(payload: seq<byte>)
    ensures var parsed := ParseStoragePayload(payload);
            (parsed.Some? <==> |payload| >= 3 && payload[0] == 1 && 1 <= payload[1] <= 32 && |payload| > 2 + payload[1])
            && (parsed.Some? ==>
                  && |parsed.value.0| == payload[1]
                  && payload[2..] == parsed.value.0 + parsed.value.1)
  {
  }

  /** What a payload decrypts to for a user under the given keys; empty when it does not. */
  function OpenPayload(p: Primitives, keys: map<i32, Key>, u: i32, payload: seq<byte>): seq<byte> {
    var parsed := ParseStoragePayload(payload);
    if parsed.None? || u !in keys then []
    else
      var plain := GcmOpen(p, keys[u], parsed.value.0, parsed.value.1);
      if plain.None? then [] else plain.value
  }

  /** A framed encryption under the user's key opens to what was encrypted. */
  lemma SealedPayloadOpens(p: Primitives, keys: map<i32, Key>, u: i32, nonce: seq<byte>, plain: seq<byte>)
    requires u in keys && 0 < |nonce| <= MAX_NONCE_SIZE
    ensures var payload := SerializeStoragePayload(nonce, Gcm(p, keys[u], nonce, plain));
            payload != [] && OpenPayload(p, keys, u, payload) == plain
  {
    var c := Gcm(p, keys[u], nonce, plain);
    FramingIsExact(SerializeStoragePayload(nonce, c), nonce, c);
    GcmOpenInvertsGcm(p, keys[u], nonce, c, plain);
  }

  /** `more` has every key of `keys`. */
  predicate KeysKept(keys: map<i32, Key>, more: map<i32, Key>) {
    forall u :: u in keys ==> u in more && more[u] == keys[u]
  }

  datatype Issued = Issued(u: i32, data: seq<byte>, payload: seq<byte>)

  class CryptoClient {
    const secLevel: KeyMint?
    /** Every payload handed out so far. */
    ghost var issued: set<Issued>

    constructor (secLevel: KeyMint?)
      ensures this.secLevel == secLevel && issued == {} && Valid()
    {
      this.secLevel := secLevel;
      issued := {};
    }

    /** Every payload ever issued still opens, for its user, to exactly the data it was made from. */
    ghost predicate Valid()
      reads this, secLevel
    {
      forall i :: i in issued ==>
        && secLevel != null
        && i.u in secLevel.storageKeys
        && i.data != []
        && OpenPayload(secLevel.prims, secLevel.storageKeys, i.u, i.payload) == i.data
    }

    /** Feeds all of `data` to the operation, in order, in chunks of at most 4096 bytes. */
    method Stream(op: Operation, data: seq<byte>) returns (ok: bool, out: seq<byte>)
      requires op.Valid() && op.fed == [] && op.sent == []
      modifies op
      ensures ok ==> op.Output(data) == Some(out)
      ensures !ok ==> out == []
      ensures !op.faulty ==> (ok <==> op.Output(data).Some?)
    {
      out := [];
      var offset := 0;
      while offset < |data|
        invariant 0 <= offset <= |data|
        invariant op.Valid() && op.fed == data[..offset] && op.sent == out
      {
        var chunk := if |data| - offset < CHUNK_SIZE then |data| - offset else CHUNK_SIZE;
        var chunkData := data[offset..offset + chunk];
        var status, updateOutput := op.Update(chunkData);
        if !status.Ok? {
          return false, [];
        }
        if updateOutput.Some? {
          out := out + updateOutput.value;
        }
        assert data[..offset] + chunkData == data[..offset + chunk];
        offset := offset + chunk;
      }
      assert data[..offset] == data;
      assert op.sent + [] == out;
      var status, finishOutput := op.Finish();
      if !status.Ok? {
        return false, [];
      }
      if finishOutput.Some? {
        out := out + finishOutput.value;
      }
      ok := true;
    }

    method GenerateStorageKey(userId: i32) returns (ok: bool)
      requires secLevel != null && userId !in secLevel.storageKeys
      modifies secLevel`storageKeys
      ensures KeysKept(old(secLevel.storageKeys), secLevel.storageKeys)
      ensures secLevel.storageKeys.Keys <= old(secLevel.storageKeys).Keys + {userId}
      ensures !secLevel.faulty ==> ok && userId in secLevel.storageKeys
    {
      var status := secLevel.GenerateStorageKey(userId);
      ok := status.Ok? || LooksKeyAlreadyExists(status.message);
    }

    /** A payload that is not empty opens for this user to exactly `data`, and keeps doing so; a key
        is only ever generated for this user and only when it has none. A working service always
        yields a payload. */
    method Encrypt(userId: i32, data: seq<byte>) returns (payload: seq<byte>)
      requires Valid()
      modifies this`issued, if secLevel == null then {} else {secLevel}
      ensures Valid()
      ensures issued == old(issued) + (if payload == [] then {} else {Issued(userId, data, payload)})
      ensures secLevel == null || data == [] ==> payload == []
      ensures secLevel != null ==>
                && KeysKept(old(secLevel.storageKeys), secLevel.storageKeys)
                && secLevel.storageKeys.Keys <= old(secLevel.storageKeys).Keys + {userId}
                && secLevel.macKey == old(secLevel.macKey)
      ensures secLevel != null && !secLevel.faulty && data != [] ==> payload != []
    {
      if secLevel == null || data == [] {
        return [];
      }
      ghost var before := secLevel.storageKeys;
      var status, op, nonce := secLevel.CreateStorageOperation(userId, Purpose.Encrypt, None);
      if !status.Ok? {
        if !LooksKeyMissing(status.message) {
          KeyNotFoundLooksMissing();
          return [];
        }
        var generated := GenerateStorageKey(userId);
        KeptKeysKeepPayloads(before);
        if !generated {
          return [];
        }
        status, op, nonce := secLevel.CreateStorageOperation(userId, Purpose.Encrypt, None);
        if !status.Ok? {
          return [];
        }
      }
      if nonce.None? || nonce.value == [] {
        return [];
      }
      var ok, ciphertext := Stream(op, data);
      if !ok {
        return [];
      }
      payload := SerializeStoragePayload(nonce.value, ciphertext);
      if payload != [] {
        SealedPayloadOpens(secLevel.prims, secLevel.storageKeys, userId, nonce.value, data);
        issued := issued + {Issued(userId, data, payload)};
      }
    }

    /** While old keys are kept, old payloads keep opening. */
    lemma KeptKeysKeepPayloads(before: map<i32, Key>)
      requires secLevel != null && KeysKept(before, secLevel.storageKeys)
      requires forall i :: i in issued ==>
                 && i.u in before && i.data != [] && OpenPayload(secLevel.prims, before, i.u, i.payload) == i.data
      ensures Valid()
    {
    }

    /** Gives back exactly the data of an issued payload, or nothing; a working service gives it
        back. */
    method Decrypt(userId: i32, payload: seq<byte>) returns (data: seq<byte>)
      requires Valid()
      ensures secLevel == null ==> data == []
      ensures secLevel != null ==>
                data in {[], OpenPayload(secLevel.prims, secLevel.storageKeys, userId, payload)}
      ensures secLevel != null && !secLevel.faulty ==>
                data == OpenPayload(secLevel.prims, secLevel.storageKeys, userId, payload)
      ensures forall d :: Issued(userId, d, payload) in issued ==>
                data in {[], d} && (!secLevel.faulty ==> data == d)
    {
      if secLevel == null {
        return [];
      }
      var parsed := ParseStoragePayload(payload);
      if parsed.None? {
        return [];
      }
      var status, op, _ := secLevel.CreateStorageOperation(userId, Purpose.Decrypt, Some(parsed.value.0));
      if !status.Ok? {
        return [];
      }
      var ok, decrypted := Stream(op, parsed.value.1);
      data := decrypted;
    }

    /** The HMAC of `data` under the MAC key, or nothing; the key is generated only when missing. */
    method SignWithHmacKey(data: seq<byte>) returns (mac: seq<byte>)
      modifies if secLevel == null then {} else {secLevel}
      ensures secLevel == null ==> mac == []
      ensures secLevel != null ==>
                && secLevel.storageKeys == old(secLevel.storageKeys)
                && (old(secLevel.macKey).Some? ==> secLevel.macKey == old(secLevel.macKey))
                && (mac != [] ==> secLevel.macKey.Some? && mac == secLevel.prims.hmac(secLevel.macKey.value, data))
                && (!secLevel.faulty ==> mac != [])
    {
      if secLevel == null {
        return [];
      }
      var status, op := secLevel.CreateMacOperation();
      if !status.Ok? {
        if !LooksKeyMissing(status.message) {
          KeyNotFoundLooksMissing();
          return [];
        }
        var generated := secLevel.GenerateMacKey();
        if !generated.Ok? && !LooksKeyAlreadyExists(generated.message) {
          return [];
        }
        status, op := secLevel.CreateMacOperation();
        if !status.Ok? {
          return [];
        }
      }
      var ok, signature := Stream(op, data);
      mac := signature;
    }

    /** Accepts exactly the MAC that the key gives for `data`, unless the service fails. */
    method VerifyMac(data: seq<byte>, mac: seq<byte>) returns (ok: bool)
      modifies if secLevel == null then {} else {secLevel}
      ensures ok ==> secLevel != null && secLevel.macKey.Some?
                     && mac == secLevel.prims.hmac(secLevel.macKey.value, data)
      ensures secLevel != null && !secLevel.faulty && secLevel.macKey.Some? ==>
                (ok <==> mac == secLevel.prims.hmac(secLevel.macKey.value, data))
      ensures secLevel != null && old(secLevel.macKey).Some? ==> secLevel.macKey == old(secLevel.macKey)
    {
      if mac == [] {
        return false;
      }
      var calculatedMac := SignWithHmacKey(data);
      if calculatedMac == [] || |mac| != |calculatedMac| {
        return false;
      }
      ok := mac == calculatedMac;
    }
  }
}
