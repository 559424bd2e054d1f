/**
  * The two public builders of SUOTA images: a plain or encrypted image, and a signed one whose
  * signature covers what follows the security section.
  */
module ImageBuilder {
  import opened Buffers
  import opened Bytes
  import opened ImageSections
  import Crc32

  const HEADER_SIZE := 36
  const AES_BLOCKSIZE := 16
  const OTP_START_ADDRESS := 0x07F8_0000
  const LIMIT_32 := 0x1_0000_0000

  /** The statuses; after an overrun of the key record the original's behaviour is undefined. */
  datatype Status = StatusOk | InvalidLength | InvalidParameter | InvalidData | BufferTooSmall | CryptoLibraryError
                  | KeyRecordOverrun

  // ---------------------------------------------------------------- the image header

  /** What the version file holds: the quoted version and the timestamp, if they can be found and parsed. */
  datatype VersionFile = VersionFile(size: nat, version: Option<seq<byte>>, timestamp: Option<nat>,
                                     numbers: Option<Version>)

  /** A version string without its leading "v_". */
  function Unprefixed(version: seq<byte>): seq<byte> {
    if |version| >= 2 && version[0] == 'v' as int && version[1] == '_' as int then version[2..] else version
  }

  /** The version field: cut to 15 characters, terminated, the rest left at 0xff. */
  function VersionField(version: seq<byte>): (f: seq<byte>)
    ensures |f| == 16
    ensures var n := |Shown(version)|;
            f[..n] == Shown(version) && f[n] == 0 && forall i :: n < i < 16 ==> f[i] == 0xff
  {
    var start := Unprefixed(version);
    if |start| >= 16 then start[..15] + [0] else start + [0] + Repeat(0xff, 15 - |start|)
  }

  /** As much of a version as the field can show. */
  function Shown(version: seq<byte>): (v: seq<byte>)
    ensures |v| <= 15
  {
    if |Unprefixed(version)| < 15 then Unprefixed(version) else Unprefixed(version)[..15]
  }

  /** A C string: everything before the first zero byte. */
  function CString(s: seq<byte>): seq<byte>
    decreases |s|
  {
    if s == [] || s[0] == 0 then [] else [s[0]] + CString(s[1..])
  }

  lemma {:induction false} CStringEnds(s: seq<byte>, rest: seq<byte>)
    requires forall i :: 0 <= i < |s| ==> s[i] != 0
    ensures CString(s + [0] + rest) == s
    decreases |s|
  {
    var whole := s + [0] + rest;
    if s != [] {
      assert whole[1..] == s[1..] + [0] + rest;
      CStringEnds(s[1..], rest);
    }
  }

  /** Read as a C string, the field shows the version without its prefix, cut to 15 characters. */
  lemma VersionReadsBack(version: seq<byte>)
    requires forall i :: 0 <= i < |version| ==> version[i] != 0
    ensures CString(VersionField(version)) == Shown(version)
  {
    var v, f := Shown(version), VersionField(version);
    assert f == v + [0] + f[|v| + 1..];
    CStringEnds(v, f[|v| + 1..]);
  }

  /** A leading "v_" is not shown, and otherwise the first fifteen characters are. */
  lemma VersionShows(s: seq<byte>)
    requires forall i :: 0 <= i < |s| ==> s[i] != 0
    ensures var shown := if |s| <= 15 then s else s[..15];
            && CString(VersionField(['v' as int, '_' as int] + s)) == shown
            && (!(['v' as int, '_' as int] <= s) ==> CString(VersionField(s)) == shown)
  {
    hide VersionField, CString;
    var long: seq<byte> := ['v' as int, '_' as int] + s;
    assert long[2..] == s;
    assert s[..|s|] == s;
    VersionReadsBack(long);
    VersionReadsBack(s);
  }

  /** The same bytes as words of eight bits. */
  function ToBits(data: seq<byte>): (bits: seq<bv8>)
    ensures |bits| == |data| && forall i :: 0 <= i < |data| ==> bits[i] == data[i] as bv8
  {
    seq(|data|, i requires 0 <= i < |data| => data[i] as bv8)
  }

  /** The CRC of the application binary. */
  function CrcOf(code: seq<byte>): nat { Crc32.Reference(ToBits(code)).v as nat }

  /** The stored CRC of the application binary. */
  function CrcField(code: seq<byte>): (f: seq<byte>)
    ensures |f| == 4
  {
    Le(CrcOf(code), 4)
  }

  /** suota_1_1_image_header_t as create_image fills it. */
  function Header(code: seq<byte>, version: seq<byte>, timestamp: nat, execLocation: nat): (h: seq<byte>)
    ensures |h| == HEADER_SIZE
  {
    [0x70, 0x61, 0xff, 0xff] + Le(|code|, 4) + CrcField(code) + VersionField(version) + Le(timestamp, 4)
    + Le(execLocation, 4)
  }

  function AlignUp(n: nat): (r: nat)
    ensures n <= r < n + AES_BLOCKSIZE && r % AES_BLOCKSIZE == 0
  {
    if n % AES_BLOCKSIZE == 0 then n else n + (AES_BLOCKSIZE - n % AES_BLOCKSIZE)
  }

  /** The code as it is stored: as given, or zero-padded to whole cipher blocks and encrypted. */
  function StoredSize(code: seq<byte>, encrypt: bool): nat { if encrypt then AlignUp(|code|) else |code| }

  function Padded(code: seq<byte>): (r: seq<byte>)
    ensures |r| == AlignUp(|code|)
  {
    code + Repeat(0, AlignUp(|code|) - |code|)
  }

  type Aes = seq<byte> -> Option<seq<byte>>

  /** AES-CBC under the chosen key: it may fail, and keeps the length. */
  ghost predicate Cipher(aes: Aes) {
    forall m :: aes(m).Some? ==> |aes(m).value| == |m|
  }

  function Stored(code: seq<byte>, encrypt: bool, aes: Aes): Option<seq<byte>> {
    if encrypt then aes(Padded(code)) else Some(code)
  }

  /** create_image: fills out with header, optional extension and code. */
  method CreateImage(code: seq<byte>, ver: VersionFile, encrypt: bool, aes: Aes,
                     extension: seq<byte>, out: array<byte>) returns (status: Status)
    requires Cipher(aes)
    modifies out
    ensures status == BufferTooSmall <==> ver.version.Some? && ver.timestamp.Some?
                                          && out.Length < HEADER_SIZE + |extension| + StoredSize(code, encrypt)
    ensures status == InvalidData <==> ver.version.None? || ver.timestamp.None?
    ensures status != InvalidLength && status != InvalidParameter && status != KeyRecordOverrun
    ensures status == StatusOk ==> Stored(code, encrypt, aes).Some?
    ensures status == CryptoLibraryError ==> Stored(code, encrypt, aes).None?
    ensures status == StatusOk ==>
              out[..] == Patched(old(out[..]), 0,
                                 Header(code, ver.version.value, ver.timestamp.value, HEADER_SIZE + |extension|)
                                 + extension + Stored(code, encrypt, aes).value)
  {
    hide Patched, Header, VersionField, CrcField, Padded, ToBits, Crc32.Reference, AlignUp;
    ghost var was := out[..];
    if ver.version.None? || ver.timestamp.None? {
      return InvalidData;
    }
    var crc := Crc32.ComputeCrc32(ToBits(code));
    var header := FillHeader(code, crc, ver.version.value, ver.timestamp.value, HEADER_SIZE + |extension|);
    var at := 0;
    if at + HEADER_SIZE > out.Length {
      return BufferTooSmall;
    }
    Copy(out, at, header);
    at := at + HEADER_SIZE;
    if at + |extension| > out.Length {
      return BufferTooSmall;
    }
    PatchedTwice(was, 0, header, extension);
    Copy(out, at, extension);
    at := at + |extension|;
    if encrypt {
      if at + AlignUp(|code|) > out.Length {
        return BufferTooSmall;
      }
      var enc := aes(Padded(code));
      if enc.None? {
        return CryptoLibraryError;
      }
      PatchedTwice(was, 0, header + extension, enc.value);
      Copy(out, at, enc.value);
    } else {
      if at + |code| > out.Length {
        return BufferTooSmall;
      }
      PatchedTwice(was, 0, header + extension, code);
      Copy(out, at, code);
    }
    status := StatusOk;
  }

  /** The header fields, stored one after the other into a buffer preset to 0xff. */
  method FillHeader(code: seq<byte>, crc: Crc32.Word, version: seq<byte>, timestamp: nat, execLocation: nat)
    returns (h: seq<byte>)
    requires crc == Crc32.Reference(ToBits(code))
    ensures h == Header(code, version, timestamp, execLocation)
  {
    hide Le, VersionField, Patched, Crc32.Reference, ToBits;
    var header := new byte[HEADER_SIZE](_ => 0xff);
    header[0], header[1] := 0x70, 0x61;
    assert header[..4] == [0x70, 0x61, 0xff, 0xff];
    Copy(header, 4, Le(|code|, 4));
    Copy(header, 8, Le(crc.v as nat, 4));
    Copy(header, 12, VersionField(version));
    Copy(header, 28, Le(timestamp, 4));
    Copy(header, 32, Le(execLocation, 4));
    assert header[..36] == header[..];
    h := header[..];
  }

  // ---------------------------------------------------------------- plain and encrypted images

  /** mkimage_create_single_image; aes is the cipher under the given key and vector. */
  method CreateSingleImage(code: seq<byte>, ver: VersionFile, key: Option<seq<byte>>, iv: Option<seq<byte>>, aes: Aes)
    returns (status: Status, image: seq<byte>)
    requires Cipher(aes)
    ensures status == InvalidLength <==> code == [] || ver.size < 1
    ensures status == InvalidParameter <==> code != [] && ver.size >= 1 && key.Some? != iv.Some?
    ensures status == InvalidData <==> code != [] && ver.size >= 1 && key.Some? == iv.Some?
                                       && (ver.version.None? || ver.timestamp.None?)
    ensures status != BufferTooSmall && status != KeyRecordOverrun
    ensures status == StatusOk <==> code != [] && ver.size >= 1 && key.Some? == iv.Some? && ver.version.Some?
                                    && ver.timestamp.Some? && Stored(code, key.Some?, aes).Some?
    ensures status == StatusOk ==>
              var stored := Stored(code, key.Some?, aes);
              && stored.Some? && |stored.value| == StoredSize(code, key.Some?)
              && image == Header(code, ver.version.value, ver.timestamp.value, HEADER_SIZE) + stored.value
  {
    hide Header, Patched;
    image := [];
    var size := HEADER_SIZE + |code|;
    if |code| < 1 || ver.size < 1 {
      return InvalidLength, image;
    }
    var encryption := false;
    if key.None? && iv.None? {
      encryption := false;
    } else if key.Some? && iv.Some? {
      encryption := true;
      if |code| % AES_BLOCKSIZE != 0 {
        size := size + (AES_BLOCKSIZE - |code| % AES_BLOCKSIZE);
      }
    } else {
      return InvalidParameter, image;
    }
    var out := new byte[size];
    ghost var was := out[..];
    status := CreateImage(code, ver, encryption, aes, [], out);
    if status == StatusOk {
      image := out[..];
      ghost var h := Header(code, ver.version.value, ver.timestamp.value, HEADER_SIZE);
      assert h + [] == h;
      PatchedWhole(was, h + Stored(code, encryption, aes).value);
    }
  }

  // ---------------------------------------------------------------- signed images

  datatype Curve = Secp192r1 | Secp224r1 | Secp256r1 | Secp384r1 | Bp256r1 | Bp384r1 | Bp512r1 | Curve25519
                 | Secp192k1 | Secp224k1 | Secp256k1 | Edwards25519 | InvalidCurve

  datatype Hash = Sha224 | Sha256 | Sha384 | Sha512 | InvalidHash

  /** elliptic_curve_to_hdr_ecc_curve: 0 for curves the header cannot name. */
  function HeaderCurve(c: Curve): byte {
    match c
    case Secp192r1 => 1
    case Secp224r1 => 2
    case Secp256r1 => 3
    case Edwards25519 => 4
    case _ => 0
  }

  function HeaderHash(h: Hash): byte {
    match h
    case Sha224 => 1
    case Sha256 => 2
    case Sha384 => 3
    case Sha512 => 4
    case InvalidHash => 0
  }

  /** The length of every signature the crypto library makes on a curve. */
  function SignatureLength(c: Curve): nat {
    match c
    case Secp192r1 => 48
    case Secp224r1 => 56
    case Secp256r1 => 64
    case Secp384r1 => 96
    case Bp256r1 => 64
    case Bp384r1 => 96
    case Bp512r1 => 128
    case Curve25519 => 32
    case Secp192k1 => 48
    case Secp224k1 => 56
    case Secp256k1 => 64
    case Edwards25519 => 64
    case InvalidCurve => 0
  }

  /**
    * What the crypto library signs: the i-th call on a message gives a signature or fails. ECDSA
    * is randomised, so two calls on one message may differ.
    */
  type Signer = (nat, seq<byte>) -> Option<seq<byte>>

  ghost predicate SignsOn(sign: Signer, c: Curve) {
    forall i, m :: sign(i, m).Some? ==> |sign(i, m).value| == SignatureLength(c)
  }

  /** create_signature with a buffer of the given capacity. */
  method CreateSignature(message: seq<byte>, curve: Curve, hash: Hash, call: nat, sign: Signer, capacity: nat)
    returns (status: Status, signature: seq<byte>)
    ensures status == InvalidParameter
            <==> curve == InvalidCurve || hash == InvalidHash || (curve == Edwards25519 && hash != Sha512)
    ensures status == CryptoLibraryError ==> capacity < SignatureLength(curve) || sign(call, message).None?
    ensures status == StatusOk || status == InvalidParameter || status == CryptoLibraryError
    ensures status == StatusOk ==> capacity >= SignatureLength(curve) && sign(call, message) == Some(signature)
  {
    signature := [];
    if curve == InvalidCurve || hash == InvalidHash || (curve == Edwards25519 && hash != Sha512) {
      return InvalidParameter, signature;
    }
    if capacity < SignatureLength(curve) {
      return CryptoLibraryError, signature;
    }
    var s := sign(call, message);
    if s.None? {
      return CryptoLibraryError, signature;
    }
    return StatusOk, s.value;
  }

  /** check_key_id: the identifier arrives as a C int. */
  predicate ValidKeyId(keyId: nat) {
    keyId <= 3 || OTP_START_ADDRESS <= keyId < 0x8000_0000
  }

  /** The parameters rejected before the version file is looked at. */
  predicate BadParameters(curve: Curve, hash: Hash, keyId: nat) {
    curve == InvalidCurve || hash == InvalidHash || (curve == Edwards25519 && hash != Sha512) || !ValidKeyId(keyId)
  }

  function SecurityHeaderFor(curve: Curve, hash: Hash, keyId: nat): SecurityHeader {
    SecurityHeader(keyId, if curve == Edwards25519 then 2 else 1, HeaderCurve(curve), HeaderHash(hash))
  }

  /** The pattern that fills up the header area to a multiple of 1024. */
  function PatternSize(devAdmSize: nat, securitySize: nat): (p: nat)
    ensures p < 1024 && (HEADER_SIZE + securitySize + devAdmSize + p) % 1024 == 0
  {
    var size := HEADER_SIZE + securitySize + devAdmSize;
    if size % 1024 != 0 then 1024 - size % 1024 else 0
  }

  function Pattern(curve: Curve, version: Version, data: Option<OptData>): seq<byte> {
    Repeat(0xff, PatternSize(|AdminSection(version, data)|, 15 + SignatureLength(curve)))
  }

  /** What the final signature covers. */
  function SignedPart(code: seq<byte>, curve: Curve, version: Version, data: Option<OptData>): seq<byte> {
    AdminSection(version, data) + Pattern(curve, version, data) + code
  }

  /** Where the code starts. */
  function CodeStart(curve: Curve, version: Version, data: Option<OptData>): nat {
    HEADER_SIZE + (15 + SignatureLength(curve)) + |AdminSection(version, data)| + |Pattern(curve, version, data)|
  }

  /** A finished signed image. */
  function SecureImage(code: seq<byte>, ver: VersionFile, curve: Curve, hash: Hash, keyId: nat, data: Option<OptData>,
                       signature: seq<byte>): seq<byte>
    requires ver.version.Some? && ver.timestamp.Some? && ver.numbers.Some?
  {
    var v := ver.numbers.value;
    Header(code, ver.version.value, ver.timestamp.value, CodeStart(curve, v, data))
    + SecuritySection(SecurityHeaderFor(curve, hash, keyId), signature)
    + SignedPart(code, curve, v, data)
  }

  /** What stands between the image header and the code. */
  function Extension(curve: Curve, hash: Hash, keyId: nat, version: Version, data: Option<OptData>,
                     signature: seq<byte>): seq<byte> {
    SecuritySection(SecurityHeaderFor(curve, hash, keyId), signature) + AdminSection(version, data)
    + Pattern(curve, version, data)
  }

  /** Sign the code, lay out the sections around that signature, sign the result, patch the new signature in. */
  method SignAndLayOut(code: seq<byte>, version: Version, curve: Curve, hash: Hash, keyId: nat, data: Option<OptData>,
                       sign: Signer)
    returns (status: Status, dataBuffer: seq<byte>)
    requires SignsOn(sign, curve) && HeaderCurve(curve) != 0
    ensures status == if hash == InvalidHash || (curve == Edwards25519 && hash != Sha512) then InvalidParameter
                      else if sign(0, code).None? then CryptoLibraryError
                      else if !KeysFit(data) then KeyRecordOverrun
                      else if BadMinVersion(data) then InvalidData
                      else if sign(1, SignedPart(code, curve, version, data)).None? then CryptoLibraryError
                      else StatusOk
    ensures status == StatusOk ==>
              var final := sign(1, SignedPart(code, curve, version, data)).value;
              dataBuffer == Extension(curve, hash, keyId, version, data, final)
  {
    hide Patched, AdminSection, SecuritySection, KeysFit, SecurityHeaderFor, BadMinVersion, SignedPart, Pattern;
    dataBuffer := [];
    ghost var hdr := SecurityHeaderFor(curve, hash, keyId);
    var signature, securitySection, securitySize;
    status, signature, securitySection, securitySize := SignCode(code, curve, hash, keyId, sign);
    if status != StatusOk {
      return;
    }
    var devAdmSection := new byte[2048](_ => 0);
    var filled := FillDeviceAdministrationSection(devAdmSection, version, data);
    if filled.None? {
      return KeyRecordOverrun, dataBuffer;
    }
    var devAdmSize := filled.value;
    if devAdmSize == 0 {
      return InvalidData, dataBuffer;
    }
    status, dataBuffer := SignTheRest(code, version, curve, hash, data, sign, securitySection, securitySize, hdr,
                                      signature, devAdmSection[..devAdmSize]);
  }

  /** The first signature and the security section around it. */
  method SignCode(code: seq<byte>, curve: Curve, hash: Hash, keyId: nat, sign: Signer)
    returns (status: Status, signature: seq<byte>, section: array<byte>, size: nat)
    requires SignsOn(sign, curve) && HeaderCurve(curve) != 0
    ensures fresh(section)
    ensures status == if hash == InvalidHash || (curve == Edwards25519 && hash != Sha512) then InvalidParameter
                      else if sign(0, code).None? then CryptoLibraryError
                      else StatusOk
    ensures status == StatusOk ==>
              && |signature| == SignatureLength(curve) && size == 15 + |signature| <= section.Length
              && section[..size] == SecuritySection(SecurityHeaderFor(curve, hash, keyId), signature)
  {
    hide SecuritySection, SecurityHeaderFor;
    section, size := new byte[2048](_ => 0), 0;
    status, signature := CreateSignature(code, curve, hash, 0, sign, 1024);
    if status == StatusOk {
      size := FillSecuritySection(section, SecurityHeaderFor(curve, hash, keyId), signature);
    }
  }

  /** The second half: fill up, sign, and put the new signature in place of the first. */
  method SignTheRest(code: seq<byte>, version: Version, curve: Curve, hash: Hash, ghost data: Option<OptData>,
                     sign: Signer, securitySection: array<byte>, securitySize: nat, ghost hdr: SecurityHeader,
                     first: seq<byte>, admin: seq<byte>)
    returns (status: Status, dataBuffer: seq<byte>)
    requires SignsOn(sign, curve) && |first| == SignatureLength(curve)
    requires curve != InvalidCurve && hash != InvalidHash && (curve == Edwards25519 ==> hash == Sha512)
    requires securitySize == 15 + |first| <= securitySection.Length && admin == AdminSection(version, data)
    requires securitySection[..securitySize] == SecuritySection(hdr, first)
    modifies securitySection
    ensures status == StatusOk || status == CryptoLibraryError
    ensures var final := sign(1, SignedPart(code, curve, version, data));
            if status == StatusOk then
              final.Some? && dataBuffer == SecuritySection(hdr, final.value) + admin + Pattern(curve, version, data)
            else final.None?
  {
    hide Patched, AdminSection, SecuritySection, PatternSize, Repeat;
    dataBuffer := [];
    var pattern := Repeat(0xff, PatternSize(|admin|, securitySize));
    var signature;
    status, signature := CreateSignature(admin + pattern + code, curve, hash, 1, sign, |first|);
    if status != StatusOk {
      return;
    }
    OverwriteSignature(securitySection, securitySize, hdr, first, signature);
    dataBuffer := securitySection[..securitySize] + admin + pattern;
  }

  /** The memcpy that puts the final signature over the first one. */
  method OverwriteSignature(section: array<byte>, size: nat, ghost hdr: SecurityHeader, ghost first: seq<byte>,
                            final: seq<byte>)
    requires size <= section.Length && section[..size] == SecuritySection(hdr, first) && |first| == |final|
    modifies section
    ensures section[..size] == SecuritySection(hdr, final)
  {
    hide Patched, SecuritySection;
    ghost var was := section[..];
    assert was[..size] == SecuritySection(hdr, first);
    SignatureAtEnd(hdr, first, final);
    Copy(section, size - |final|, final);
    PatchedInside(was, size, 15, final);
    assert section[..size] == section[..][..size];
  }

  /**
    * mkimage_create_single_secure_image: sign the binary to learn the size of the security
    * section, lay out the rest, sign that, and put the second signature in place of the first.
    */
  method CreateSingleSecureImage(code: seq<byte>, ver: VersionFile, curve: Curve, hash: Hash, privKeyLength: nat,
                                 keyId: nat, data: Option<OptData>, sign: Signer)
    returns (status: Status, image: seq<byte>)
    requires SignsOn(sign, curve)
    requires ver.numbers.Some? ==> ver.version.Some?
    ensures status != BufferTooSmall
    ensures status == KeyRecordOverrun
            <==> code != [] && ver.size >= 1 && privKeyLength >= 1 && !BadParameters(curve, hash, keyId)
                 && HeaderCurve(curve) != 0 && ver.numbers.Some? && sign(0, code).Some? && !KeysFit(data)
    ensures status == InvalidLength <==> code == [] || ver.size < 1 || privKeyLength < 1
    ensures status == InvalidParameter
            <==> code != [] && ver.size >= 1 && privKeyLength >= 1
                 && (BadParameters(curve, hash, keyId) || (ver.numbers.Some? && HeaderCurve(curve) == 0))
    ensures status == InvalidData
            <==> code != [] && ver.size >= 1 && privKeyLength >= 1 && !BadParameters(curve, hash, keyId)
                 && (ver.numbers.None?
                     || (HeaderCurve(curve) != 0 && sign(0, code).Some? && KeysFit(data)
                         && ((data.Some? && data.value.changeMinVersion && data.value.minVersion == Unparsable)
                             || (ver.timestamp.None?
                                 && sign(1, SignedPart(code, curve, ver.numbers.value, data)).Some?))))
    ensures status == StatusOk <==> code != [] && ver.size >= 1 && privKeyLength >= 1
                                    && !BadParameters(curve, hash, keyId) && HeaderCurve(curve) != 0
                                    && ver.numbers.Some? && ver.timestamp.Some?
                                    && KeysFit(data) && !BadMinVersion(data) && sign(0, code).Some?
                                    && sign(1, SignedPart(code, curve, ver.numbers.value, data)).Some?
    ensures status == StatusOk ==>
              image == SecureImage(code, ver, curve, hash, keyId, data,
                                      sign(1, SignedPart(code, curve, ver.numbers.value, data)).value)
  {
    hide Header, AdminSection, SecureImage, Extension, SignedPart, KeysFit;
    image := [];
    if |code| < 1 || ver.size < 1 || privKeyLength < 1 {
      return InvalidLength, image;
    }
    if BadParameters(curve, hash, keyId) {
      return InvalidParameter, image;
    }
    if ver.numbers.None? {
      return InvalidData, image;
    }
    var version := ver.numbers.value;
    if HeaderCurve(curve) == 0 || HeaderHash(hash) == 0 {
      return InvalidParameter, image;
    }
    var dataBuffer;
    status, dataBuffer := SignAndLayOut(code, version, curve, hash, keyId, data, sign);
    if status != StatusOk {
      return;
    }
    status, image := Assemble(code, ver, dataBuffer);
    if status == StatusOk {
      ghost var final := sign(1, SignedPart(code, curve, version, data)).value;
      AssembledImage(code, ver, curve, hash, keyId, data, final);
    }
  }

  /** The last step of the secure builder: header, extension and plain code in a buffer of their total size. */
  method Assemble(code: seq<byte>, ver: VersionFile, dataBuffer: seq<byte>) returns (status: Status, image: seq<byte>)
    ensures status == if ver.version.None? || ver.timestamp.None? then InvalidData else StatusOk
    ensures status == StatusOk ==>
              image == Header(code, ver.version.value, ver.timestamp.value, HEADER_SIZE + |dataBuffer|)
                       + dataBuffer + code
  {
    hide Header, Patched;
    image := [];
    var out := new byte[HEADER_SIZE + |dataBuffer| + |code|];
    ghost var garbage := out[..];
    status := CreateImage(code, ver, false, NoCipher(), dataBuffer, out);
    if status == StatusOk {
      image := out[..];
      ghost var header := Header(code, ver.version.value, ver.timestamp.value, HEADER_SIZE + |dataBuffer|);
      PatchedWhole(garbage, header + dataBuffer + code);
    }
  }

  lemma {:induction false} AssembledImage(code: seq<byte>, ver: VersionFile, curve: Curve, hash: Hash, keyId: nat,
                                          data: Option<OptData>, signature: seq<byte>)
    requires ver.version.Some? && ver.timestamp.Some? && ver.numbers.Some? && |signature| == SignatureLength(curve)
    ensures var e := Extension(curve, hash, keyId, ver.numbers.value, data, signature);
            SecureImage(code, ver, curve, hash, keyId, data, signature)
            == Header(code, ver.version.value, ver.timestamp.value, HEADER_SIZE + |e|) + e + code
  {
    hide Header, AdminSection, SecuritySection, Pattern, SecurityHeaderFor, SignatureLength;
    var v := ver.numbers.value;
    var sec := SecuritySection(SecurityHeaderFor(curve, hash, keyId), signature);
    SecuritySectionLength(SecurityHeaderFor(curve, hash, keyId), signature);
    var e := Extension(curve, hash, keyId, v, data, signature);
    Regroup(Header(code, ver.version.value, ver.timestamp.value, HEADER_SIZE + |e|), sec, AdminSection(v, data),
            Pattern(curve, v, data), code);
  }

  lemma SecuritySectionLength(hdr: SecurityHeader, signature: seq<byte>)
    ensures |SecuritySection(hdr, signature)| == 15 + |signature|
  {}

  function NoCipher(): (aes: Aes)
    ensures Cipher(aes)
  {
    m => None
  }

  lemma Regroup(h: seq<byte>, s: seq<byte>, d: seq<byte>, p: seq<byte>, c: seq<byte>)
    ensures h + (s + d + p) + c == h + s + (d + p + c)
  {}

  // ---------------------------------------------------------------- reading images back

  /** The fields a loader takes from the front of an image. */
  function CodeSizeField(image: seq<byte>): nat
    requires |image| >= HEADER_SIZE
  {
    UnLe(image[4..8])
  }

  function ExecLocation(image: seq<byte>): nat
    requires |image| >= HEADER_SIZE
  {
    UnLe(image[32..36])
  }

  function CrcStored(image: seq<byte>): nat
    requires |image| >= HEADER_SIZE
  {
    UnLe(image[8..12])
  }

  lemma CrcFits(code: seq<byte>)
    ensures UnLe(CrcField(code)) == CrcOf(code)
  {
    hide ToBits, Crc32.Reference, Le;
    WordFits(Crc32.Reference(ToBits(code)).v);
    Pow256Values();
    UnLeOfLe(CrcOf(code), 4);
  }

  lemma WordFits(v: bv32)
    ensures v as int < 0x1_0000_0000
  {}

  lemma {:induction false} HeaderFields(code: seq<byte>, version: seq<byte>, timestamp: nat, execLocation: nat,
                                        rest: seq<byte>)
    ensures var image := Header(code, version, timestamp, execLocation) + rest;
            && CodeSizeField(image) == |code| % LIMIT_32 && ExecLocation(image) == execLocation % LIMIT_32
            && CrcStored(image) == CrcOf(code) && UnLe(image[28..32]) == timestamp % LIMIT_32
            && image[..4] == [0x70, 0x61, 0xff, 0xff] && image[12..28] == VersionField(version)
  {
    hide CrcField, CrcOf, VersionField, Le;
    CrcFits(code);
    Pow256Values();
    UnLeOfLow(|code|, 4);
    UnLeOfLow(timestamp, 4);
    UnLeOfLow(execLocation, 4);
    var image := Header(code, version, timestamp, execLocation) + rest;
    assert image[8..12] == CrcField(code);
    assert image[4..8] == Le(|code|, 4) && image[28..32] == Le(timestamp, 4) && image[32..36] == Le(execLocation, 4);
  }

  /**
    * An image read back, plain or encrypted and of any length: the exec location is the index
    * where the code starts. With the cipher undone, the code of the size the header gives is what
    * went in, and the stored CRC is its CRC, as long as the size fits its field.
    */
  lemma {:induction false} ImageReadsBack(code: seq<byte>, version: seq<byte>, timestamp: nat, encrypt: bool, aes: Aes,
                                          decrypt: seq<byte> -> seq<byte>)
    requires Cipher(aes) && Stored(code, encrypt, aes).Some?
    requires forall m :: aes(m).Some? ==> decrypt(aes(m).value) == m
    ensures var stored := Stored(code, encrypt, aes).value;
            var image := Header(code, version, timestamp, HEADER_SIZE) + stored;
            && ExecLocation(image) == HEADER_SIZE && image[ExecLocation(image)..] == stored
            && CodeSizeField(image) == |code| % LIMIT_32 && CrcStored(image) == CrcOf(code)
            && |image| == HEADER_SIZE + StoredSize(code, encrypt)
            && var clear := if encrypt then decrypt(image[ExecLocation(image)..]) else image[ExecLocation(image)..];
               && code <= clear && (forall i :: |code| <= i < |clear| ==> clear[i] == 0)
               && (if encrypt then |stored| % 16 == 0 && |stored| < |code| + 16 else stored == code)
               && (|code| < LIMIT_32 ==>
                 CodeSizeField(image) <= |clear| && CrcStored(image) == CrcOf(clear[..CodeSizeField(image)]))
  {
    hide CrcField, CrcOf, CrcStored, VersionField, Le, ExecLocation, CodeSizeField, Header;
    var stored := Stored(code, encrypt, aes).value;
    HeaderFields(code, version, timestamp, HEADER_SIZE, stored);
    var image := Header(code, version, timestamp, HEADER_SIZE) + stored;
    assert image[HEADER_SIZE..] == stored;
    var clear := if encrypt then decrypt(stored) else stored;
    assert clear[..|code|] == code;
  }

  /** A plain image holds the code itself, with its CRC in front of it. */
  lemma {:induction false} PlainImageReadsBack(code: seq<byte>, version: seq<byte>, timestamp: nat)
    ensures var image := Header(code, version, timestamp, HEADER_SIZE) + code;
            && ExecLocation(image) == HEADER_SIZE && image[ExecLocation(image)..] == code
            && CrcStored(image) == CrcOf(image[ExecLocation(image)..])
            && (CodeSizeField(image) == |image| - HEADER_SIZE <==> |code| < LIMIT_32)
  {
    hide CrcField, CrcOf, CrcStored, VersionField, Le, ExecLocation, CodeSizeField, Header;
    HeaderFields(code, version, timestamp, HEADER_SIZE, code);
    var image := Header(code, version, timestamp, HEADER_SIZE) + code;
    assert image[HEADER_SIZE..] == code;
  }

  /** What a bootloader checks: a signature, and the bytes it must be a signature of. */
  datatype Claim = Claim(header: seq<byte>, signature: seq<byte>, signed: seq<byte>)

  /**
    * Takes the security section (0x22AA, with the signature under 0x33AA) after the image header
    * apart; everything after it is covered.
    */
  function ReadClaim(image: seq<byte>): Option<Claim>
    requires |image| >= HEADER_SIZE
  {
    match FirstRecord(image[HEADER_SIZE..])
    case None => None
    case Some(section) =>
      if section.t != 0x22AA || |section.value| < 7 then None
      else match FirstRecord(section.value[7..])
           case None => None
           case Some(sig) =>
             if sig.t != 0x33AA then None
             else Some(Claim(section.value[..7], sig.value, image[HEADER_SIZE + 4 + |section.value|..]))
  }

  lemma {:induction false} ClaimBack(front: seq<byte>, hdr: SecurityHeader, signature: seq<byte>, signed: seq<byte>)
    requires |front| == HEADER_SIZE && |signature| < 1000
    ensures ReadClaim(front + SecuritySection(hdr, signature) + signed)
            == Some(Claim(SecurityHeaderBytes(hdr), signature, signed))
  {
    hide Tlv, FirstRecord, SecurityHeaderBytes;
    var image := front + SecuritySection(hdr, signature) + signed;
    var value := SecurityHeaderBytes(hdr) + Tlv(TYPE_SIGNATURE_SECTION, signature);
    assert image[HEADER_SIZE..] == Tlv(TYPE_SECURITY_SECTION, value) + signed;
    FirstBack(TYPE_SECURITY_SECTION, value, signed);
    FirstBack(TYPE_SIGNATURE_SECTION, signature, []);
    assert value[7..] == Tlv(TYPE_SIGNATURE_SECTION, signature) + [];
    assert value[..7] == SecurityHeaderBytes(hdr);
    assert image[HEADER_SIZE + 4 + |value|..] == signed;
  }

  /**
    * The bytes signed are the bytes shipped: whatever is read out of a finished image as covered
    * by its signature is exactly what the second signing call was given, and the signature read
    * out is the one that call made.
    */
  lemma {:induction false} SignedIsShipped(code: seq<byte>, ver: VersionFile, curve: Curve, hash: Hash, keyId: nat,
                                           data: Option<OptData>, sign: Signer)
    requires ver.version.Some? && ver.timestamp.Some? && ver.numbers.Some? && SignsOn(sign, curve)
    requires sign(1, SignedPart(code, curve, ver.numbers.value, data)).Some?
    ensures var final := sign(1, SignedPart(code, curve, ver.numbers.value, data)).value;
            var claim := ReadClaim(SecureImage(code, ver, curve, hash, keyId, data, final));
            && claim.Some? && sign(1, claim.value.signed) == Some(claim.value.signature)
            && claim.value.signed == SignedPart(code, curve, ver.numbers.value, data)
            && claim.value.header == SecurityHeaderBytes(SecurityHeaderFor(curve, hash, keyId))
  {
    hide Header, SecuritySection, SignedPart, SecurityHeaderBytes, ReadClaim, CodeStart;
    var v := ver.numbers.value;
    var signed := SignedPart(code, curve, v, data);
    var final := sign(1, signed).value;
    ClaimBack(Header(code, ver.version.value, ver.timestamp.value, CodeStart(curve, v, data)),
              SecurityHeaderFor(curve, hash, keyId), final, signed);
  }

  // ---------------------------------------------------------------- the security header read back

  /** What a loader is told about a signature: the key, EdDSA or ECDSA, the curve and the hash. */
  datatype SecurityInfo = SecurityInfo(keyId: nat, eddsa: bool, curve: Curve, hash: Hash)

  /** The curves and hashes that the bytes of a security header stand for. */
  function CurveOf(b: byte): Option<Curve> {
    match b
    case 1 => Some(Secp192r1)
    case 2 => Some(Secp224r1)
    case 3 => Some(Secp256r1)
    case 4 => Some(Edwards25519)
    case _ => None
  }

  function HashOf(b: byte): Option<Hash> {
    match b
    case 1 => Some(Sha224)
    case 2 => Some(Sha256)
    case 3 => Some(Sha384)
    case 4 => Some(Sha512)
    case _ => None
  }

  /** The key in four bytes, the mode (1 is ECDSA, 2 EdDSA), the curve and the hash. */
  function DecodeSecurityHeader(b: seq<byte>): Option<SecurityInfo> {
    if |b| != 7 || (b[4] != 1 && b[4] != 2) || CurveOf(b[5]).None? || HashOf(b[6]).None? then None
    else Some(SecurityInfo(UnLe(b[..4]), b[4] == 2, CurveOf(b[5]).value, HashOf(b[6]).value))
  }

  /**
    * The requests the builder accepts: the four curves a header can name, any hash, and keys by index
    * or OTP address.
    */
  predicate Accepted(curve: Curve, hash: Hash, keyId: nat) {
    && (curve == Secp192r1 || curve == Secp224r1 || curve == Secp256r1 || curve == Edwards25519)
    && hash != InvalidHash && (curve == Edwards25519 ==> hash == Sha512)
    && (keyId < 4 || 0x07F8_0000 <= keyId < 0x8000_0000)
  }

  lemma AcceptedRequests(curve: Curve, hash: Hash, keyId: nat)
    ensures Accepted(curve, hash, keyId) <==> !BadParameters(curve, hash, keyId) && HeaderCurve(curve) != 0
    ensures Accepted(curve, hash, keyId) ==>
              SignatureLength(curve) == if curve == Secp192r1 then 48 else if curve == Secp224r1 then 56 else 64
  {}

  /** The header of a finished image tells a loader exactly the key, mode, curve and hash that were asked for. */
  lemma RequestIsShipped(code: seq<byte>, ver: VersionFile, curve: Curve, hash: Hash, keyId: nat,
                         data: Option<OptData>, signature: seq<byte>)
    requires ver.version.Some? && ver.timestamp.Some? && ver.numbers.Some? && Accepted(curve, hash, keyId)
    requires |signature| == SignatureLength(curve)
    ensures var claim := ReadClaim(SecureImage(code, ver, curve, hash, keyId, data, signature));
            && claim.Some?
            && DecodeSecurityHeader(claim.value.header)
               == Some(SecurityInfo(keyId, curve == Edwards25519, curve, hash))
  {
    hide Header, SecuritySection, SignedPart, SecurityHeaderBytes, ReadClaim, CodeStart, DecodeSecurityHeader;
    var v := ver.numbers.value;
    SecurityHeaderDecodes(curve, hash, keyId);
    ClaimBack(Header(code, ver.version.value, ver.timestamp.value, CodeStart(curve, v, data)),
              SecurityHeaderFor(curve, hash, keyId), signature, SignedPart(code, curve, v, data));
  }

  lemma SecurityHeaderDecodes(curve: Curve, hash: Hash, keyId: nat)
    requires Accepted(curve, hash, keyId)
    ensures DecodeSecurityHeader(SecurityHeaderBytes(SecurityHeaderFor(curve, hash, keyId)))
            == Some(SecurityInfo(keyId, curve == Edwards25519, curve, hash))
  {
    hide Le;
    var b := SecurityHeaderBytes(SecurityHeaderFor(curve, hash, keyId));
    Pow256Values();
    UnLeOfLe(keyId, 4);
    assert b[..4] == Le(keyId, 4);
  }

  /** In a signed image the code starts at the header's exec location, a multiple of 1024. */
  lemma {:induction false} SecureCodeStart(code: seq<byte>, ver: VersionFile, curve: Curve, hash: Hash, keyId: nat,
                                           data: Option<OptData>, signature: seq<byte>)
    requires ver.version.Some? && ver.timestamp.Some? && ver.numbers.Some? && KeysFit(data)
    requires |signature| == SignatureLength(curve)
    ensures var image := SecureImage(code, ver, curve, hash, keyId, data, signature);
            && ExecLocation(image) % 1024 == 0 && ExecLocation(image) <= |image|
            && image[ExecLocation(image)..] == code && CodeSizeField(image) == |code| % LIMIT_32
            && CrcStored(image) == CrcOf(code)
    ensures |Pattern(curve, ver.numbers.value, data)| < 1024
  {
    hide Header, SecuritySection, SecurityHeaderFor, AdminSection, ExecLocation, CodeSizeField, CrcStored, CrcOf,
      KeysFit, Pattern, CodeStart, SignatureLength;
    var v := ver.numbers.value;
    var h := Header(code, ver.version.value, ver.timestamp.value, CodeStart(curve, v, data));
    var sec := SecuritySection(SecurityHeaderFor(curve, hash, keyId), signature);
    var admin, pattern := AdminSection(v, data), Pattern(curve, v, data);
    SecuritySectionLength(SecurityHeaderFor(curve, hash, keyId), signature);
    CodeStartAligned(curve, v, data);
    HeaderFields(code, ver.version.value, ver.timestamp.value, CodeStart(curve, v, data),
                 sec + (admin + pattern + code));
    FiveParts(h, sec, admin, pattern, code);
  }

  /** Between the device administration section and the code there is nothing but 0xff. */
  lemma GapIsBlank(code: seq<byte>, curve: Curve, version: Version, data: Option<OptData>)
    ensures var signed, n := SignedPart(code, curve, version, data), |AdminSection(version, data)|;
            n <= |signed| - |code| && forall i :: n <= i < |signed| - |code| ==> signed[i] == 0xff
  {
    hide AdminSection, PatternSize;
  }

  /** Five parts one after the other, seen as the first and the rest, and as the last and what precedes it. */
  lemma FiveParts(h: seq<byte>, s: seq<byte>, d: seq<byte>, p: seq<byte>, c: seq<byte>)
    ensures h + s + (d + p + c) == h + (s + (d + p + c))
    ensures var n := |h| + |s| + |d| + |p|; n <= |h + s + (d + p + c)| && (h + s + (d + p + c))[n..] == c
  {
    assert h + s + (d + p + c) == (h + s + d + p) + c;
  }

  lemma {:induction false} CodeStartAligned(curve: Curve, version: Version, data: Option<OptData>)
    requires KeysFit(data)
    ensures CodeStart(curve, version, data) % 1024 == 0 && CodeStart(curve, version, data) < 2048
    ensures CodeStart(curve, version, data)
            == HEADER_SIZE + (15 + SignatureLength(curve)) + |AdminSection(version, data)|
               + |Pattern(curve, version, data)|
    ensures |Pattern(curve, version, data)| < 1024
  {
    hide AdminSection, SignatureLength, KeysFit;
    AdminSectionSmall(version, data);
    assert SignatureLength(curve) <= 128 by { SignatureShort(curve); }
  }

  lemma SignatureShort(curve: Curve)
    ensures SignatureLength(curve) <= 128
  {}

  lemma AdminSectionSmall(version: Version, data: Option<OptData>)
    requires KeysFit(data)
    ensures 4 <= |AdminSection(version, data)| <= 279
  {
    hide AdminPayload;
    AdminPayloadFits(version, data);
  }

  /** The device administration section of a signed image decodes to what it was made from. */
  lemma {:induction false} ShippedAdminDecodes(code: seq<byte>, curve: Curve, version: Version, data: Option<OptData>)
    requires Version16(version) && KeysFit(data) && !BadMinVersion(data)
    requires data.Some? ==> KeyIds32(data.value.revKeys)
    requires data.Some? && data.value.minVersion.Parsed? ==> Version16(data.value.minVersion.v)
    ensures DecodeAdmin(SignedPart(code, curve, version, data)) == Some(AdminInfoOf(version, data))
  {
    hide AdminSection, DecodeAdmin, KeysFit, KeyIds32, AdminInfoOf;
    AdminDecodes(version, data, Pattern(curve, version, data) + code);
    var a, p := AdminSection(version, data), Pattern(curve, version, data);
    assert a + p + code == a + (p + code);
  }
}
