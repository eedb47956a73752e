/** The names under which templates are stored, and how the directory scan reads a face id back
    from a name. */
module FileNames {
  import opened Wrappers
  import opened Bytes
  import opened Strings

  const BASE_DIR := "/data/vendor/biometrics/face/"

  /** A path as its parent directory (ending in '/') and its file name. */
  datatype Path = Path(dir: string, name: string)

  // ---------------------------------------------------------------- printing integers

  predicate IsDigit(c: char) {
    '0' <= c <= '9'
  }

  predicate AllDigits(s: string) {
    forall k :: 0 <= k < |s| ==> IsDigit(s[k])
  }

  function Digits(n: nat): string {
    if n < 10 then ['0' + n as char] else Digits(n / 10) + ['0' + (n % 10) as char]
  }

  /** `std::to_string` of an int. */
  function ToString(i: int): string {
    if i < 0 then "-" + Digits(-i) else Digits(i)
  }

  // ---------------------------------------------------------------- scanning integers

  predicate IsSpace(c: char) {
    c == ' ' || '\t' <= c <= '\r'
  }

  function SkipSpaces(s: string): string {
    if s != [] && IsSpace(s[0]) then SkipSpaces(s[1..]) else s
  }

  /** The number of leading digits. */
  function DigitRun(s: string): (n: nat)
    ensures n <= |s| && AllDigits(s[..n])
  {
    if s != [] && IsDigit(s[0]) then 1 + DigitRun(s[1..]) else 0
  }

  function ValueOf(s: string): nat
    requires AllDigits(s)
  {
    if s == [] then 0
    else
      assert IsDigit(s[|s| - 1]);
      10 * ValueOf(s[..|s| - 1]) + (s[|s| - 1] as nat - '0' as nat)
  }

  /** `%d` converts through a saturating 64-bit integer and keeps the low 32 bits. */
  function NarrowToI32(v: int): i32 {
    var clamped := if v > 0x7fff_ffff_ffff_ffff then 0x7fff_ffff_ffff_ffff
                   else if v < -0x8000_0000_0000_0000 then -0x8000_0000_0000_0000 else v;
    var low := clamped % TWO32;
    if low >= 0x8000_0000 then low - TWO32 else low
  }

  function ScanMagnitude(s: string, negative: bool): Option<i32> {
    var n := DigitRun(s);
    if n == 0 then None
    else
      var value: int := ValueOf(s[..n]);
      Some(NarrowToI32(if negative then -value else value))
  }

  /** `sscanf(s, "%d", &id)`: the assigned value, or None when nothing is assigned. */
  function ScanInt(s: string): Option<i32> {
    var t := SkipSpaces(s);
    if t != [] && (t[0] == '-' || t[0] == '+') then ScanMagnitude(t[1..], t[0] == '-')
    else ScanMagnitude(t, false)
  }

  // ---------------------------------------------------------------- paths

  function UserDirectory(userId: i32): string {
    BASE_DIR + "user_" + ToString(userId) + "/"
  }

  function FaceName(faceId: i32, suffix: string): string {
    "face_" + ToString(faceId) + suffix
  }

  const ENCRYPTED := ".dat"
  const PLAINTEXT := "_without_encryption.dat"

  function FilePath(userId: i32, faceId: i32): Path {
    Path(UserDirectory(userId), FaceName(faceId, ENCRYPTED))
  }

  function PlaintextFilePath(userId: i32, faceId: i32): Path {
    Path(UserDirectory(userId), FaceName(faceId, PLAINTEXT))
  }

  function TempPath(p: Path): Path {
    p.(name := p.name + ".tmp")
  }

  function FullName(p: Path): string {
    p.dir + p.name
  }

  /** The full paths, written out. */
  lemma FullPaths(u: i32, f: i32)
    ensures var start := "/data/vendor/biometrics/face/user_" + ToString(u) + "/face_" + ToString(f);
            && FullName(FilePath(u, f)) == start + ".dat"
            && FullName(PlaintextFilePath(u, f)) == start + "_without_encryption.dat"
            && FullName(TempPath(FilePath(u, f))) == start + ".dat.tmp"
  {
    var a, b := ToString(u), ToString(f);
    hide ToString;
    Regroup(BASE_DIR, "user_", a, "/", "face_", b);
    assert BASE_DIR + "user_" == "/data/vendor/biometrics/face/user_" && "/" + "face_" == "/face_";
  }

  lemma Regroup(p: string, q: string, r: string, s: string, t: string, w: string)
    ensures forall x: string :: (p + q + r + s) + (t + w + x) == (p + q) + r + (s + t) + w + x
  {
  }

  /** `std::to_string`, of a negative number for instance. */
  lemma PrintedNumbers()
    ensures ToString(0) == "0" && ToString(-305) == "-305"
  {
  }

  // ---------------------------------------------------------------- the scan's classification

  /** A directory entry that the scan and the emptiness test look at. */
  predicate IsTemplateName(name: string) {
    "face_" <= name && Contains(name, ".dat")
  }

  predicate IsPlaintextName(name: string) {
    Contains(name, PLAINTEXT)
  }

  /** The face id that the scan acts on, None for an entry that it skips. Only the number after
      "face_" is assigned, so both `sscanf` formats agree. */
  function ParsedId(name: string): Option<i32> {
    if !IsTemplateName(name) then None
    else
      var id := ScanInt(name[5..]);
      if id == Some(-1) then None else id
  }

  // ---------------------------------------------------------------- printed names parse back

  lemma {:induction false} DigitsAreDigits(n: nat)
    ensures |Digits(n)| > 0 && AllDigits(Digits(n))
  {
    if n < 10 {
    } else {
      DigitsAreDigits(n / 10);
    }
  }

  lemma {:induction false} ValueOfDigits(n: nat)
    ensures AllDigits(Digits(n))
    ensures ValueOf(Digits(n)) == n
  {
    DigitsAreDigits(n);
    var s := Digits(n);
    if n < 10 {
      assert s[..|s| - 1] == [];
    } else {
      ValueOfDigits(n / 10);
      assert s[..|s| - 1] == Digits(n / 10);
    }
  }

  lemma {:induction false} DigitRunOf(s: string, rest: string)
    requires AllDigits(s)
    requires rest == [] || !IsDigit(rest[0])
    ensures DigitRun(s + rest) == |s|
  {
    if s == [] {
      assert s + rest == rest;
    } else {
      assert (s + rest)[1..] == s[1..] + rest;
      DigitRunOf(s[1..], rest);
    }
  }

  lemma NarrowKeepsI32(i: i32)
    ensures NarrowToI32(i) == i
  {
  }

  lemma ScanOfDigits(negative: bool, d: string, rest: string)
    requires d != [] && AllDigits(d)
    requires rest == [] || !IsDigit(rest[0])
    ensures var value: int := ValueOf(d);
            ScanMagnitude(d + rest, negative) == Some(NarrowToI32(if negative then -value else value))
  {
    DigitRunOf(d, rest);
    assert (d + rest)[..|d|] == d;
  }

  lemma ScanDispatches(negative: bool, d: string, rest: string)
    requires d != [] && IsDigit(d[0])
    ensures ScanInt((if negative then "-" + d else d) + rest) == ScanMagnitude(d + rest, negative)
  {
    var s := (if negative then "-" + d else d) + rest;
    assert SkipSpaces(s) == s;
    if negative {
      assert s[1..] == d + rest;
    }
  }

  /** `%d` recovers a printed 32-bit integer whatever non-digit follows it. */
  lemma ScanRecoversPrinted(i: i32, rest: string)
    requires rest == [] || !IsDigit(rest[0])
    ensures ScanInt(ToString(i) + rest) == Some(i)
  {
    var v: int := i;
    var n: nat := if v < 0 then -v else v;
    DigitsAreDigits(n);
    ValueOfDigits(n);
    ScanDispatches(v < 0, Digits(n), rest);
    ScanOfDigits(v < 0, Digits(n), rest);
    NarrowKeepsI32(i);
  }

  predicate IsSign(sign: string) {
    sign == "" || sign == "+" || sign == "-"
  }

  lemma SignedNumber(sign: string, digits: string, rest: string)
    requires IsSign(sign) && digits != [] && IsDigit(digits[0])
    ensures ScanInt(sign + digits + rest) == ScanMagnitude(digits + rest, sign == "-")
  {
    hide ScanMagnitude;
    var s := sign + digits + rest;
    if sign == "+" {
      assert SkipSpaces(s) == s && s[1..] == digits + rest;
    } else {
      assert sign + digits == if sign == "-" then "-" + digits else digits;
      ScanDispatches(sign == "-", digits, rest);
    }
  }

  lemma {:induction false} SkipsBlanks(blanks: string, s: string)
    requires forall k :: 0 <= k < |blanks| ==> blanks[k] in {' ', '\t', '\n', '\U{0B}', '\U{0C}', '\r'}
    ensures SkipSpaces(blanks + s) == SkipSpaces(s)
    decreases |blanks|
  {
    if blanks == [] {
      assert blanks + s == s;
    } else {
      assert (blanks + s)[1..] == blanks[1..] + s;
      SkipsBlanks(blanks[1..], s);
    }
  }

  /** How `%d` reads any string that starts with a number: blanks and a sign may go before the digits, and whatever
      follows them is ignored. */
  lemma ScanReadsLeadingNumber(blanks: string, sign: string, digits: string, rest: string)
    requires forall k :: 0 <= k < |blanks| ==> blanks[k] in {' ', '\t', '\n', '\U{0B}', '\U{0C}', '\r'}
    requires IsSign(sign) && digits != [] && AllDigits(digits) && (rest == [] || !IsDigit(rest[0]))
    ensures var value: int := ValueOf(digits);
            ScanInt(blanks + (sign + digits + rest)) == Some(NarrowToI32(if sign == "-" then -value else value))
  {
    hide SkipSpaces, ScanMagnitude, NarrowToI32;
    SkipsBlanks(blanks, sign + digits + rest);
    SignedNumber(sign, digits, rest);
    ScanOfDigits(sign == "-", digits, rest);
  }

  /** A number beyond 64 bits is read as the nearest 64-bit one, and of that the low 32 bits are kept. */
  lemma NarrowingSaturatesThenWraps(v: int)
    ensures -0x8000_0000_0000_0000 <= v < 0x8000_0000_0000_0000 ==> (NarrowToI32(v) - v) % 0x1_0000_0000 == 0
    ensures v >= 0x8000_0000_0000_0000 ==> NarrowToI32(v) == -1
    ensures v < -0x8000_0000_0000_0000 ==> NarrowToI32(v) == 0
  {
  }

  /** So a name that the storage never writes can stand for a face: the number in it need only agree with the id in
      its low 32 bits. */
  lemma LongNumberStandsForFace(f: i32, n: nat)
    requires n < 0x8000_0000_0000_0000 && (n - f) % 0x1_0000_0000 == 0 && f != -1
    ensures ParsedId("face_" + Digits(n) + ENCRYPTED) == Some(f)
  {
    hide ScanInt, NarrowToI32;
    var name := "face_" + Digits(n) + ENCRYPTED;
    DigitsAreDigits(n);
    ValueOfDigits(n);
    ScanReadsLeadingNumber("", "", Digits(n), ENCRYPTED);
    assert "" + ("" + Digits(n) + ENCRYPTED) == name[5..];
    NarrowingSaturatesThenWraps(n);
    SameLowBits(f, NarrowToI32(n), n);
    assert OccursAt(name, |name| - 4, ".dat");
  }

  lemma SameLowBits(f: i32, g: i32, n: int)
    requires (n - f) % 0x1_0000_0000 == 0 && (g - n) % 0x1_0000_0000 == 0
    ensures f == g
  {
    var d: int := g - f;
    assert d % 0x1_0000_0000 == 0;
  }

  /** A printed integer between a fixed prefix and a non-digit can be read off uniquely. */
  lemma PrintedBetweenIsUnique(prefix: string, i: i32, j: i32, s: string, t: string)
    requires s != [] && !IsDigit(s[0]) && t != [] && !IsDigit(t[0])
    ensures prefix + ToString(i) + s == prefix + ToString(j) + t <==> i == j && s == t
  {
    var x, y := prefix + ToString(i) + s, prefix + ToString(j) + t;
    assert x[|prefix|..] == ToString(i) + s && y[|prefix|..] == ToString(j) + t;
    ScanRecoversPrinted(i, s);
    ScanRecoversPrinted(j, t);
    assert (ToString(i) + s)[|ToString(i)|..] == s;
    assert (ToString(j) + t)[|ToString(j)|..] == t;
  }

  lemma FaceNameInjective(f: i32, g: i32, s: string, t: string)
    requires s != [] && !IsDigit(s[0]) && t != [] && !IsDigit(t[0])
    ensures FaceName(f, s) == FaceName(g, t) <==> f == g && s == t
  {
    PrintedBetweenIsUnique("face_", f, g, s, t);
  }

  lemma UserDirectoryInjective(u: i32, v: i32, s: string, t: string)
    ensures UserDirectory(u) + s == UserDirectory(v) + t <==> u == v && s == t
  {
    var prefix := BASE_DIR + "user_";
    assert UserDirectory(u) + s == prefix + ToString(u) + ("/" + s);
    assert UserDirectory(v) + t == prefix + ToString(v) + ("/" + t);
    PrintedBetweenIsUnique(prefix, u, v, "/" + s, "/" + t);
    assert ("/" + s)[1..] == s && ("/" + t)[1..] == t;
  }

  /** Each (user, face, variant) has its own path string, and no temporary file shares one. */
  lemma PathsAreDistinct(u: i32, f: i32, s: string, v: i32, g: i32, t: string)
    requires s in {ENCRYPTED, PLAINTEXT, ENCRYPTED + ".tmp", PLAINTEXT + ".tmp"}
    requires t in {ENCRYPTED, PLAINTEXT, ENCRYPTED + ".tmp", PLAINTEXT + ".tmp"}
    ensures FullName(Path(UserDirectory(u), FaceName(f, s))) == FullName(Path(UserDirectory(v), FaceName(g, t)))
       <==> u == v && f == g && s == t
  {
    UserDirectoryInjective(u, v, FaceName(f, s), FaceName(g, t));
    FaceNameInjective(f, g, s, t);
  }

  /** The scan recovers the id and the variant of every stored name, except that it skips id -1. */
  lemma ScanRecoversName(f: i32, plaintext: bool)
    ensures var name := FaceName(f, if plaintext then PLAINTEXT else ENCRYPTED);
            && ParsedId(name) == (if f == -1 then None else Some(f))
            && (IsPlaintextName(name) <==> plaintext)
  {
    hide ScanInt, ToString, ParsedId;
    var suffix := if plaintext then PLAINTEXT else ENCRYPTED;
    FaceNameParses(f, suffix, |suffix| - 4);
    if plaintext {
      var head := "face_" + ToString(f);
      assert OccursAt(FaceName(f, PLAINTEXT), |head|, PLAINTEXT);
    } else {
      EncryptedNameHasNoW(f);
      assert PLAINTEXT[1] == 'w';
      NoOccurrenceWithout(FaceName(f, ENCRYPTED), PLAINTEXT, 'w');
    }
  }

  lemma FaceNameParses(f: i32, suffix: string, i: nat)
    requires suffix != [] && !IsDigit(suffix[0]) && OccursAt(suffix, i, ".dat")
    ensures IsTemplateName(FaceName(f, suffix))
    ensures ParsedId(FaceName(f, suffix)) == if f == -1 then None else Some(f)
  {
    hide ScanInt, ToString;
    var name, head := FaceName(f, suffix), "face_" + ToString(f);
    ScanRecoversPrinted(f, suffix);
    assert name[5..] == ToString(f) + suffix;
    assert name[|head| + i..|head| + i + 4] == suffix[i..i + 4];
    assert OccursAt(name, |head| + i, ".dat");
  }

  lemma EncryptedNameHasNoW(f: i32)
    ensures 'w' !in FaceName(f, ENCRYPTED)
  {
    var v: int := f;
    var d := Digits(if v < 0 then -v else v);
    DigitsAreDigits(if v < 0 then -v else v);
    assert 'w' !in d;
  }
}
