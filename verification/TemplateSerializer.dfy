/** The on-disk image of a face template: a 16-byte header, the embedding bytes, an FNV-1a
    checksum and a 32-byte MAC. */
module TemplateSerializer {
  import opened Wrappers
  import opened Bytes
  import opened Checksum

  const CURRENT_VERSION: u32 := 1
  const MAC_SIZE := 32
  const MIN_SIZE := 20 + MAC_SIZE

  datatype FaceTemplate = FaceTemplate(
    version: u32,
    faceId: i32,
    userId: i32,
    templateData: seq<byte>,
    checksum: u32,
    mac: seq<byte>)

  /** What the HMAC operation returns: empty on failure, 32 bytes otherwise. */
  type MacResult = s: seq<byte> | |s| == 0 || |s| == MAC_SIZE witness []

  /** The keyed MAC as the serializer sees it; it may fail on any input. */
  type Signer = seq<byte> -> MacResult

  /** The caller-owned structure that `deserialize` fills in field by field. */
  class TemplateRecord {
    var version: u32
    var faceId: i32
    var userId: i32
    var templateData: seq<byte>
    var checksum: u32
    var mac: seq<byte>

    /** The fields start with arbitrary values. */
    constructor () {
    }

    function Value(): FaceTemplate
      reads this
    {
      FaceTemplate(version, faceId, userId, templateData, checksum, mac)
    }
  }

  function TemplateSize(t: FaceTemplate): u32 {
    TruncateToU32(|t.templateData|)
  }

  /** The checksummed part: header and (as many as the size field counts) embedding bytes. */
  function Body(t: FaceTemplate): (body: seq<byte>)
    ensures |body| == 16 + TemplateSize(t)
  {
    U32ToBytes(t.version) + I32ToBytes(t.faceId) + I32ToBytes(t.userId) + U32ToBytes(TemplateSize(t))
    + t.templateData[..TemplateSize(t)]
  }

  /** The part covered by the MAC. */
  function Signed(t: FaceTemplate): (signed: seq<byte>)
    ensures |signed| == 20 + TemplateSize(t)
  {
    Body(t) + U32ToBytes(Fnv1a(Body(t)))
  }

  function Serialized(sign: Signer, t: FaceTemplate): seq<byte> {
    var mac := sign(Signed(t));
    if mac == [] then [] else Signed(t) + mac
  }

  /** The template a later load is meant to give back for `t`. */
  function Stored(sign: Signer, t: FaceTemplate): FaceTemplate {
    t.(templateData := t.templateData[..TemplateSize(t)],
       checksum := Fnv1a(Body(t)),
       mac := sign(Signed(t)))
  }

  /** What the fields before the MAC say. */
  function ParseSigned(signed: seq<byte>, mac: seq<byte>): Option<FaceTemplate>
    requires |signed| >= 20
  {
    var version, size := BytesToU32(signed[0..4]), BytesToU32(signed[12..16]);
    if version != CURRENT_VERSION || |signed| != 20 + size then None
    else
      var body, checksum := signed[..16 + size], BytesToU32(signed[16 + size..]);
      if checksum != Fnv1a(body) then None
      else Some(FaceTemplate(version, BytesToI32(signed[4..8]), BytesToI32(signed[8..12]), body[16..], checksum, mac))
  }

  function Parse(sign: Signer, data: seq<byte>): Option<FaceTemplate> {
    if |data| < MIN_SIZE then None
    else
      var signed, mac := data[..|data| - MAC_SIZE], data[|data| - MAC_SIZE..];
      if mac != sign(signed) then None else ParseSigned(signed, mac)
  }

  /** `memcpy(buffer + offset, src)`. */
  method Put(buffer: array<byte>, offset: nat, src: seq<byte>) returns (next: nat)
    requires offset + |src| <= buffer.Length
    modifies buffer
    ensures next == offset + |src|
    ensures buffer[..next] == old(buffer[..offset]) + src
  {
    forall i | 0 <= i < |src| {
      buffer[offset + i] := src[i];
    }
    next := offset + |src|;
  }

  method Serialize(t: FaceTemplate, sign: Signer) returns (image: seq<byte>)
    ensures image == Serialized(sign, t)
  {
    var templateSize := TruncateToU32(|t.templateData|);
    var buffer := new byte[20 + templateSize];
    var offset := Put(buffer, 0, U32ToBytes(t.version));
    offset := Put(buffer, offset, I32ToBytes(t.faceId));
    offset := Put(buffer, offset, I32ToBytes(t.userId));
    offset := Put(buffer, offset, U32ToBytes(templateSize));
    offset := Put(buffer, offset, t.templateData[..templateSize]);
    assert buffer[..offset] == Body(t);
    var checksum := CalculateChecksum(buffer[..offset]);
    offset := Put(buffer, offset, U32ToBytes(checksum));
    image := buffer[..offset];
    assert image == Signed(t);
    var mac := sign(image);
    if mac == [] {
      return [];
    }
    image := image + mac;
  }

  /** `CryptoClient::verifyMac`. */
  predicate VerifyMac(sign: Signer, data: seq<byte>, mac: seq<byte>) {
    mac != [] && sign(data) != [] && |mac| == |sign(data)| && mac == sign(data)
  }

  /** Accepts exactly what `Parse` accepts. On success every field of `out` comes from `data`;
      on failure `out` may have been overwritten in part. */
  method Deserialize(data: seq<byte>, sign: Signer, out: TemplateRecord) returns (ok: bool)
    modifies out
    ensures ok <==> Parse(sign, data).Some?
    ensures ok ==> out.Value() == Parse(sign, data).value
  {
    hide Fnv1a, BytesToU32, BytesToI32;
    if |data| < MIN_SIZE {
      return false;
    }
    var actualData := data[..|data| - MAC_SIZE];
    var storedMac := data[|data| - MAC_SIZE..];
    if !VerifyMac(sign, actualData, storedMac) {
      return false;
    }
    ghost var signed := actualData;
    assert data[0..4] == signed[0..4] && data[4..8] == signed[4..8];
    assert data[8..12] == signed[8..12] && data[12..16] == signed[12..16];
    out.mac := storedMac;
    var offset: int := 0;
    out.version := BytesToU32(data[offset..offset + 4]);
    offset := offset + 4;
    if out.version != CURRENT_VERSION {
      return false;
    }
    out.faceId := BytesToI32(data[offset..offset + 4]);
    offset := offset + 4;
    out.userId := BytesToI32(data[offset..offset + 4]);
    offset := offset + 4;
    var templateSize := BytesToU32(data[offset..offset + 4]);
    offset := offset + 4;
    if |data| != MIN_SIZE + templateSize {
      return false;
    }
    out.templateData := data[offset..offset + templateSize];
    offset := offset + templateSize;
    assert data[..offset] == signed[..offset] && out.templateData == signed[..offset][16..];
    assert data[offset..offset + 4] == signed[offset..];
    var storedChecksum := BytesToU32(data[offset..offset + 4]);
    var calculatedChecksum := CalculateChecksum(data[..offset]);
    if storedChecksum != calculatedChecksum {
      return false;
    }
    out.checksum := storedChecksum;
    return true;
  }

  /** The fixed-offset fields of the header. */
  lemma BodyLayout(t: FaceTemplate)
    ensures var b, n := Body(t), TemplateSize(t);
            && b[0..4] == U32ToBytes(t.version)
            && b[4..8] == I32ToBytes(t.faceId)
            && b[8..12] == I32ToBytes(t.userId)
            && b[12..16] == U32ToBytes(n)
            && b[16..] == t.templateData[..n]
  {
  }

  /** A signed image parses to its own fields. */
  lemma ParseOfSigned(t: FaceTemplate, mac: seq<byte>)
    ensures ParseSigned(Signed(t), mac)
         == if t.version == CURRENT_VERSION
            then Some(t.(templateData := t.templateData[..TemplateSize(t)], checksum := Fnv1a(Body(t)), mac := mac))
            else None
  {
    var n, b, c := TemplateSize(t), Body(t), Fnv1a(Body(t));
    BodyLayout(t);
    U32SurvivesBytes(t.version);
    I32SurvivesBytes(t.faceId);
    I32SurvivesBytes(t.userId);
    U32SurvivesBytes(n);
    U32SurvivesBytes(c);
    Slices(b, U32ToBytes(c), n);
  }

  lemma Slices(b: seq<byte>, c: seq<byte>, n: nat)
    requires |b| == 16 + n && |c| == 4
    ensures var s := b + c;
            && s[0..4] == b[0..4] && s[4..8] == b[4..8] && s[8..12] == b[8..12] && s[12..16] == b[12..16]
            && s[..16 + n] == b && s[16 + n..] == c
  {
  }

  /** Only the signed image of a template parses to it. */
  lemma SignedOfParse(signed: seq<byte>, mac: seq<byte>)
    requires |signed| >= 20 && ParseSigned(signed, mac).Some?
    ensures var t := ParseSigned(signed, mac).value;
            && t.version == CURRENT_VERSION
            && |t.templateData| < TWO32
            && t.checksum == Fnv1a(Body(t))
            && t.mac == mac
            && Signed(t) == signed
  {
    var t := ParseSigned(signed, mac).value;
    var n: nat := BytesToU32(signed[12..16]);
    BytesSurviveU32(signed[0..4]);
    BytesSurviveI32(signed[4..8]);
    BytesSurviveI32(signed[8..12]);
    BytesSurviveU32(signed[12..16]);
    BytesSurviveU32(signed[16 + n..]);
    assert |t.templateData| == n && TemplateSize(t) == n;
    assert t.templateData[..n] == t.templateData == signed[..16 + n][16..];
    Reassemble(signed, n);
  }

  lemma Reassemble(s: seq<byte>, n: nat)
    requires |s| == 20 + n
    ensures s[0..4] + s[4..8] + s[8..12] + s[12..16] + s[..16 + n][16..] == s[..16 + n]
    ensures s[..16 + n] + s[16 + n..] == s
  {
  }

  lemma TruncationIsHarmlessIffSmall(s: seq<byte>)
    ensures s[..TruncateToU32(|s|)] == s <==> |s| < TWO32
  {
  }

  /** The unsigned number in the four bytes from `at` on, least significant first. */
  function WordAt(s: seq<byte>, at: nat): int
    requires at + 4 <= |s|
  {
    var d: seq<int> := s;
    d[at] + 256 * d[at + 1] + 65536 * d[at + 2] + 16777216 * d[at + 3]
  }

  function TwosComplement(i: i32): int {
    if i < 0 then i + TWO32 else i
  }

  /** Where each field of a file lies, byte by byte. */
  lemma ImageLayout(sign: Signer, t: FaceTemplate)
    requires Serialized(sign, t) != []
    ensures var s, n := Serialized(sign, t), |t.templateData| % 0x1_0000_0000;
            && |s| == 20 + n + 32
            && WordAt(s, 0) == t.version
            && WordAt(s, 4) == TwosComplement(t.faceId)
            && WordAt(s, 8) == TwosComplement(t.userId)
            && WordAt(s, 12) == n
            && s[16..16 + n] == t.templateData[..n]
            && WordAt(s, 16 + n) == Fnv1a(s[..16 + n])
            && s[20 + n..] == sign(s[..20 + n])
  {
    var s, b, n := Serialized(sign, t), Body(t), |t.templateData| % 0x1_0000_0000;
    var c := U32ToBytes(Fnv1a(b));
    assert s == b + c + sign(Signed(t)) && Signed(t) == b + c;
    assert s[..16 + n] == b && s[..20 + n] == Signed(t) && s[20 + n..] == sign(Signed(t));
    BodyLayout(t);
    assert I32ToBytes(t.faceId) == U32ToBytes(TwosComplement(t.faceId));
    assert I32ToBytes(t.userId) == U32ToBytes(TwosComplement(t.userId));
    hide Body, Signed, Serialized, Fnv1a, U32ToBytes, I32ToBytes, WordAt, TwosComplement;
    HeaderOfImage(s, b, n);
    assert s[16 + n..20 + n] == c;
    WordOfBytes(s, 0, t.version);
    WordOfBytes(s, 4, TwosComplement(t.faceId));
    WordOfBytes(s, 8, TwosComplement(t.userId));
    WordOfBytes(s, 12, n);
    WordOfBytes(s, 16 + n, Fnv1a(b));
  }

  lemma HeaderOfImage(s: seq<byte>, b: seq<byte>, n: nat)
    requires |b| == 16 + n <= |s| && s[..16 + n] == b
    ensures s[0..4] == b[0..4] && s[4..8] == b[4..8] && s[8..12] == b[8..12] && s[12..16] == b[12..16]
    ensures s[16..16 + n] == b[16..]
  {
  }

  lemma WordOfBytes(s: seq<byte>, at: nat, n: u32)
    requires at + 4 <= |s| && s[at..at + 4] == U32ToBytes(n)
    ensures WordAt(s, at) == n
  {
    U32SurvivesBytes(n);
    var w := s[at..at + 4];
    assert w[0] == s[at] && w[1] == s[at + 1] && w[2] == s[at + 2] && w[3] == s[at + 3];
  }

  /** Reading back what was written gives the template, unless it has another version. */
  lemma ParseOfSerialized(sign: Signer, t: FaceTemplate)
    requires Serialized(sign, t) != []
    ensures Parse(sign, Serialized(sign, t))
         == if t.version == CURRENT_VERSION then Some(Stored(sign, t)) else None
  {
    var d, s := Serialized(sign, t), Signed(t);
    ParseOfSigned(t, sign(s));
    assert d[..|d| - MAC_SIZE] == s && d[|d| - MAC_SIZE..] == sign(s);
  }

  /** Writing what was read reproduces the file byte for byte. */
  lemma SerializedOfParse(sign: Signer, data: seq<byte>)
    requires Parse(sign, data).Some?
    ensures var t := Parse(sign, data).value;
            && t.version == CURRENT_VERSION
            && |t.templateData| < TWO32
            && Stored(sign, t) == t
            && Serialized(sign, t) == data
  {
    var signed, mac := data[..|data| - MAC_SIZE], data[|data| - MAC_SIZE..];
    SignedOfParse(signed, mac);
    var t := Parse(sign, data).value;
    TruncationIsHarmlessIffSmall(t.templateData);
    assert signed + mac == data;
  }

  /** The accepted byte strings are exactly the images of current-version templates. */
  lemma AcceptsExactlyTheImages(sign: Signer, data: seq<byte>)
    ensures Parse(sign, data).Some?
       <==> data != [] && exists t: FaceTemplate :: t.version == CURRENT_VERSION && Serialized(sign, t) == data
  {
    if Parse(sign, data).Some? {
      SerializedOfParse(sign, data);
    }
    forall t: FaceTemplate | t.version == CURRENT_VERSION && Serialized(sign, t) == data && data != []
      ensures Parse(sign, data).Some?
    {
      ParseOfSerialized(sign, t);
    }
  }

  /** The embedding survives exactly when its length fits the 32-bit size field. */
  lemma EmbeddingSurvivesIffItFits(sign: Signer, t: FaceTemplate)
    requires t.version == CURRENT_VERSION && sign(Signed(t)) != []
    ensures var r := Parse(sign, Serialized(sign, t));
            r.Some? && (r.value.templateData == t.templateData <==> |t.templateData| < TWO32)
  {
    ParseOfSerialized(sign, t);
    TruncationIsHarmlessIffSmall(t.templateData);
  }

  /** A template of 2^32 bytes is written, accepted, and comes back empty. */
  lemma OversizedEmbeddingIsLost(sign: Signer, t: FaceTemplate)
    requires t.version == CURRENT_VERSION && sign(Signed(t)) != []
    requires t.templateData == seq(TWO32, _ => 0)
    ensures Parse(sign, Serialized(sign, t)).Some?
    ensures Parse(sign, Serialized(sign, t)).value.templateData == []
  {
    ParseOfSerialized(sign, t);
  }

  /** A changed byte in the checksummed part or in the checksum itself is never accepted. */
  lemma ChangedByteBreaksChecksum(signed: seq<byte>, mac: seq<byte>, i: nat, b: byte, newMac: seq<byte>)
    requires |signed| >= 20 && ParseSigned(signed, mac).Some?
    requires i < |signed| && b != signed[i]
    ensures ParseSigned(signed[i := b], newMac) == None
  {
    var n: nat := BytesToU32(signed[12..16]);
    var changed := signed[i := b];
    var body, check := signed[..16 + n], signed[16 + n..];
    if i < 16 + n {
      assert changed[..16 + n] == body[i := b] && changed[16 + n..] == check;
      DetectsSingleByteChange(body, i, b);
    } else {
      var other := check[i - 16 - n := b];
      assert changed[..16 + n] == body && changed[16 + n..] == other;
      assert other[i - 16 - n] != check[i - 16 - n];
      BytesSurviveU32(check);
      BytesSurviveU32(other);
    }
  }

  /** A changed byte before the MAC is rejected even when the MAC is recomputed over it. */
  lemma ResigningDoesNotHideAChangedByte(sign: Signer, data: seq<byte>, i: nat, b: byte)
    requires Parse(sign, data).Some?
    requires i < |data| - MAC_SIZE && b != data[i]
    requires sign(data[..|data| - MAC_SIZE][i := b]) != []
    ensures var changed := data[..|data| - MAC_SIZE][i := b];
            Parse(sign, changed + sign(changed)) == None
  {
    var signed, mac := data[..|data| - MAC_SIZE], data[|data| - MAC_SIZE..];
    var changed := signed[i := b];
    var d := changed + sign(changed);
    assert d[..|d| - MAC_SIZE] == changed && d[|d| - MAC_SIZE..] == sign(changed);
    ChangedByteBreaksChecksum(signed, mac, i, b, sign(changed));
  }
}
