/**
  * The sections of a SUOTA image: type-length-value records, the security section and the
  * device administration section, written through a cursor into fixed buffers.
  */
module ImageSections {
  import opened Buffers
  import opened Bytes

  const TYPE_SECURITY_SECTION := 0x22AA
  const TYPE_SIGNATURE_SECTION := 0x33AA
  const TYPE_DEVICE_ADMIN_SECTION := 0x44AA
  const TYPE_KEY_REVOCATION_RECORD := 0x55AA
  const TYPE_FW_VERSION_NUMBER := 0x66AA
  const TYPE_ROLLBACK_PREVENTION_SEGMENT := 0x77AA

  const KEY_TYPE_PUBLIC: byte := 0xA4
  const KEY_TYPE_SYMMETRIC: byte := 0xA5

  const LIMIT_16 := 0x1_0000

  // ---------------------------------------------------------------- records

  function Tlv(t: nat, value: seq<byte>): (r: seq<byte>)
    ensures |r| == 4 + |value|
  {
    Le(t, 2) + Le(|value|, 2) + value
  }

  /** put_tlv: writes a record at a position and returns the position after it. */
  method PutTlv(buf: array<byte>, at: nat, t: nat, value: seq<byte>) returns (end: nat)
    requires t < LIMIT_16 && |value| < LIMIT_16 && at + 4 + |value| <= buf.Length
    modifies buf
    ensures end == at + |Tlv(t, value)| && buf[..] == Patched(old(buf[..]), at, Tlv(t, value))
    ensures buf[..end] == old(buf[..at]) + Tlv(t, value)
  {
    hide Patched, Le;
    ghost var was := buf[..];
    end := at;
    Copy(buf, end, Le(t, 2));
    end := end + 2;
    Copy(buf, end, Le(|value|, 2));
    end := end + 2;
    PatchedTwice(was, at, Le(t, 2), Le(|value|, 2));
    PatchedTwice(was, at, Le(t, 2) + Le(|value|, 2), value);
    if |value| > 0 {
      Copy(buf, end, value);
      end := end + |value|;
    } else {
      assert Le(t, 2) + Le(|value|, 2) + value == Le(t, 2) + Le(|value|, 2);
    }
    PatchedAppend(was, at, Tlv(t, value));
    assert buf[..end] == buf[..][..end] && old(buf[..at]) == was[..at];
  }

  // ---------------------------------------------------------------- reading records

  datatype Record = Record(t: nat, value: seq<byte>)

  /** The record a byte string starts with; None when it is cut short. */
  function FirstRecord(s: seq<byte>): (r: Option<Record>)
    ensures r.Some? ==> 4 + |r.value.value| <= |s|
  {
    if |s| < 4 then None
    else
      var length := UnLe(s[2..4]);
      if |s| < 4 + length then None else Some(Record(UnLe(s[..2]), s[4..4 + length]))
  }

  /** A byte string read as a series of records. */
  function ParseTlvs(s: seq<byte>): Option<seq<Record>>
    decreases |s|
  {
    if s == [] then Some([])
    else match FirstRecord(s)
         case None => None
         case Some(r) =>
           match ParseTlvs(s[4 + |r.value|..])
           case None => None
           case Some(rest) => Some([r] + rest)
  }

  /** A record is read back, whatever bytes follow it. */
  lemma FirstBack(t: nat, value: seq<byte>, rest: seq<byte>)
    requires t < LIMIT_16 && |value| < LIMIT_16
    ensures FirstRecord(Tlv(t, value) + rest) == Some(Record(t, value))
  {
    var s := Tlv(t, value) + rest;
    Pow256Values();
    UnLeOfLe(t, 2);
    UnLeOfLe(|value|, 2);
    assert s[..2] == Le(t, 2) && s[2..4] == Le(|value|, 2);
    assert s[4..4 + |value|] == value;
  }

  lemma ParseFirst(t: nat, value: seq<byte>, rest: seq<byte>)
    requires t < LIMIT_16 && |value| < LIMIT_16
    ensures ParseTlvs(Tlv(t, value) + rest)
            == match ParseTlvs(rest) case None => None case Some(r) => Some([Record(t, value)] + r)
  {
    hide FirstRecord;
    FirstBack(t, value, rest);
    assert (Tlv(t, value) + rest)[4 + |value|..] == rest;
  }

  // ---------------------------------------------------------------- device administration section

  datatype KeyType = Public | Symmetric | OtherType

  datatype KeyId = KeyId(keyType: KeyType, id: nat)

  datatype Version = Version(major: nat, minor: nat)

  predicate Version16(v: Version) { v.major < LIMIT_16 && v.minor < LIMIT_16 }

  /** The minimum version string: not given, not parsable, or two numbers. */
  datatype MinVersion = NotGiven | Unparsable | Parsed(v: Version)

  datatype OptData = OptData(revKeys: seq<KeyId>, changeMinVersion: bool, minVersion: MinVersion)

  function Recognised(keys: seq<KeyId>): (r: seq<KeyId>)
    ensures |r| <= |keys|
    decreases |keys|
  {
    if keys == [] then []
    else Recognised(keys[..|keys| - 1]) + if keys[|keys| - 1].keyType == OtherType then [] else [keys[|keys| - 1]]
  }

  function KeyBytes(k: KeyId): (s: seq<byte>)
    ensures |s| == 5
  {
    [if k.keyType == Public then KEY_TYPE_PUBLIC else KEY_TYPE_SYMMETRIC] + Le(k.id, 4)
  }

  function KeysBytes(keys: seq<KeyId>): (s: seq<byte>)
    ensures |s| == 5 * |keys|
    decreases |keys|
  {
    if keys == [] then [] else KeysBytes(keys[..|keys| - 1]) + KeyBytes(keys[|keys| - 1])
  }

  function VersionBytes(v: Version): (s: seq<byte>)
    ensures |s| == 4
  {
    Le(v.major, 2) + Le(v.minor, 2)
  }

  function KeyPart(data: OptData): seq<byte> {
    if Recognised(data.revKeys) == [] then []
    else Tlv(TYPE_KEY_REVOCATION_RECORD, KeysBytes(Recognised(data.revKeys)))
  }

  /** The minimum version that is asked for: the one given, or else the image's own. */
  function LeastVersion(version: Version, data: OptData): Version {
    if data.minVersion.Parsed? then data.minVersion.v else version
  }

  function MinPart(version: Version, data: OptData): seq<byte> {
    if !data.changeMinVersion then []
    else Tlv(TYPE_ROLLBACK_PREVENTION_SEGMENT, VersionBytes(LeastVersion(version, data)))
  }

  function AdminPayload(version: Version, data: Option<OptData>): seq<byte> {
    match data
    case None => []
    case Some(d) => KeyPart(d) + Tlv(TYPE_FW_VERSION_NUMBER, VersionBytes(version)) + MinPart(version, d)
  }

  function AdminSection(version: Version, data: Option<OptData>): seq<byte> {
    Tlv(TYPE_DEVICE_ADMIN_SECTION, AdminPayload(version, data))
  }

  /** The minimum version is asked for and cannot be parsed. */
  predicate BadMinVersion(data: Option<OptData>) {
    data.Some? && data.value.changeMinVersion && data.value.minVersion.Unparsable?
  }

  /** At most 51 recognised keys fit the 256 bytes of the record. */
  predicate KeysFit(data: Option<OptData>) {
    data.Some? ==> |Recognised(data.value.revKeys)| <= 51
  }

  /**
    * The key revocation record, built key by key in its buffer; no length means that a key does
    * not fit any more, where the original writes on past the buffer.
    */
  method FillKeyRecord(keys: seq<KeyId>) returns (record: array<byte>, length: Option<nat>)
    ensures fresh(record) && record.Length == 256
    ensures length.None? <==> |Recognised(keys)| > 51
    ensures length.Some? ==> length.value <= record.Length && record[..length.value] == KeysBytes(Recognised(keys))
  {
    hide KeyBytes, Patched, Recognised, KeysBytes;
    record := new byte[256](_ => 0);
    var at := 0;
    var i := 0;
    NoKeys(keys[..0]);
    while i < |keys|
      invariant 0 <= i <= |keys| && at <= record.Length && at == 5 * |Recognised(keys[..i])|
      invariant record[..at] == KeysBytes(Recognised(keys[..i]))
    {
      RecognisedStep(keys, i);
      RecognisedGrows(keys, i + 1);
      if keys[i].keyType != OtherType {
        if at + 5 > record.Length {
          return record, None;
        }
        KeysBytesSnoc(Recognised(keys[..i]), keys[i]);
        Copy(record, at, KeyBytes(keys[i]));
        at := at + 5;
      }
      i := i + 1;
    }
    assert keys[..i] == keys;
    length := Some(at);
  }

  /** Public and symmetric keys are kept, in their order. */
  lemma {:induction false} RecognisedKept(keys: seq<KeyId>)
    requires forall i :: 0 <= i < |keys| ==> keys[i].keyType == Public || keys[i].keyType == Symmetric
    ensures Recognised(keys) == keys
    decreases |keys|
  {
    if keys != [] {
      RecognisedKept(keys[..|keys| - 1]);
      assert keys == keys[..|keys| - 1] + [keys[|keys| - 1]];
    }
  }

  /** A key of another type, wherever it stands, makes no difference. */
  lemma {:induction false} OtherSkipped(a: seq<KeyId>, k: KeyId, b: seq<KeyId>)
    requires k.keyType == OtherType
    ensures Recognised(a + [k] + b) == Recognised(a + b)
    decreases |b|
  {
    if b == [] {
      assert a + [k] + b == a + [k] && a + b == a && (a + [k])[..|a|] == a;
    } else {
      var front, last := b[..|b| - 1], b[|b| - 1];
      OtherSkipped(a, k, front);
      assert (a + [k] + b)[..|a| + |b|] == a + [k] + front && (a + b)[..|a| + |b| - 1] == a + front;
    }
  }

  lemma RecognisedStep(keys: seq<KeyId>, i: nat)
    requires i < |keys|
    ensures Recognised(keys[..i + 1])
            == if keys[i].keyType == OtherType then Recognised(keys[..i]) else Recognised(keys[..i]) + [keys[i]]
  {
    assert keys[..i + 1][..i] == keys[..i];
  }

  lemma KeysBytesSnoc(keys: seq<KeyId>, k: KeyId)
    ensures KeysBytes(keys + [k]) == KeysBytes(keys) + KeyBytes(k)
  {
    assert (keys + [k])[..|keys|] == keys;
  }

  lemma {:induction false} RecognisedGrows(keys: seq<KeyId>, i: nat)
    requires i <= |keys|
    ensures |Recognised(keys[..i])| <= |Recognised(keys)|
    decreases |keys|
  {
    if i < |keys| {
      assert keys[..|keys| - 1][..i] == keys[..i];
      RecognisedGrows(keys[..|keys| - 1], i);
    } else {
      assert keys[..i] == keys;
    }
  }

  /** The last step of both section fillers: one record around the payload, at the start of the buffer. */
  method WriteSection(buffer: array<byte>, t: nat, payload: seq<byte>) returns (size: nat)
    requires t < LIMIT_16 && 4 + |payload| <= buffer.Length <= 2048
    modifies buffer
    ensures size == |Tlv(t, payload)| <= buffer.Length && buffer[..size] == Tlv(t, payload)
  {
    hide Tlv, Patched;
    size := PutTlv(buffer, 0, t, payload);
  }

  /**
    * What filling a section comes to: a size, a store past the key record, or a minimum version that
    * cannot be parsed.
    */
  datatype Filling = Filled(size: nat) | Overrun | Refused

  /** The records inside the device administration section. */
  method FillAdminPayload(payload: array<byte>, version: Version, d: OptData) returns (end: Filling)
    requires payload.Length == 1024
    modifies payload
    ensures end.Overrun? <==> !KeysFit(Some(d))
    ensures end.Refused? <==> KeysFit(Some(d)) && BadMinVersion(Some(d))
    ensures end.Filled? ==> end.size <= payload.Length && payload[..end.size] == AdminPayload(version, Some(d))
  {
    hide Tlv, Patched, VersionBytes, Recognised;
    var at := 0;
    if |d.revKeys| > 0 {
      var record, length := FillKeyRecord(d.revKeys);
      if length.None? {
        return Overrun;
      }
      if length.value > 0 {
        at := PutTlv(payload, at, TYPE_KEY_REVOCATION_RECORD, record[..length.value]);
      }
    } else {
      NoKeys(d.revKeys);
    }
    assert payload[..at] == KeyPart(d);
    at := PutTlv(payload, at, TYPE_FW_VERSION_NUMBER, VersionBytes(version));
    if d.changeMinVersion {
      var minVersion := version;
      if !d.minVersion.NotGiven? {
        if d.minVersion.Unparsable? {
          return Refused;
        }
        minVersion := d.minVersion.v;
      }
      at := PutTlv(payload, at, TYPE_ROLLBACK_PREVENTION_SEGMENT, VersionBytes(minVersion));
    }
    assert payload[..at] == AdminPayload(version, Some(d));
    end := Filled(at);
  }

  /**
    * fill_device_administration_section: no size when the keys overrun their record, and otherwise
    * the size 0 exactly when the minimum version cannot be parsed.
    */
  method FillDeviceAdministrationSection(buffer: array<byte>, version: Version, data: Option<OptData>)
    returns (size: Option<nat>)
    requires buffer.Length == 2048
    modifies buffer
    ensures size.None? <==> !KeysFit(data)
    ensures size == Some(0) <==> KeysFit(data) && BadMinVersion(data)
    ensures size.Some? && size.value > 0 ==>
              && size.value == |AdminSection(version, data)| && 4 <= size.value <= buffer.Length
              && buffer[..size.value] == AdminSection(version, data)
  {
    assert AdminPayload(version, None) == [];
    hide AdminPayload, Tlv, KeysFit;
    var payload := new byte[1024](_ => 0);
    var end := 0;
    if data.Some? {
      var filled := FillAdminPayload(payload, version, data.value);
      match filled {
        case Overrun => return None;
        case Refused => return Some(0);
        case Filled(size) => end := size;
      }
    }
    assert payload[..end] == AdminPayload(version, data);
    var written := WriteSection(buffer, TYPE_DEVICE_ADMIN_SECTION, payload[..end]);
    size := Some(written);
  }

  lemma NoKeys(keys: seq<KeyId>)
    requires keys == []
    ensures Recognised(keys) == [] && KeysBytes(keys) == []
  {}

  // ---------------------------------------------------------------- reading the section back

  /** What a bootloader finds in a device administration section. */
  datatype AdminInfo = AdminInfo(revoked: seq<KeyId>, version: Option<Version>, minVersion: Option<Version>)

  function UnVersion(s: seq<byte>): Option<Version> {
    if |s| != 4 then None else Some(Version(UnLe(s[..2]), UnLe(s[2..])))
  }

  /** Five bytes a key: 0xA4 for a public key or 0xA5 for a symmetric one, and its number. */
  function UnKeys(s: seq<byte>): Option<seq<KeyId>>
    decreases |s|
  {
    if s == [] then Some([])
    else if |s| < 5 || (s[0] != 0xA4 && s[0] != 0xA5) then None
    else match UnKeys(s[5..])
         case None => None
         case Some(rest) => Some([KeyId(if s[0] == 0xA4 then Public else Symmetric, UnLe(s[1..5]))] + rest)
  }

  /** The value of the first record of a type. */
  function Find(records: seq<Record>, t: nat): Option<seq<byte>>
    decreases |records|
  {
    if records == [] then None else if records[0].t == t then Some(records[0].value) else Find(records[1..], t)
  }

  /** The records inside a device administration section at the front of a byte string. */
  function InnerRecords(section: seq<byte>): Option<seq<Record>> {
    match FirstRecord(section)
    case None => None
    case Some(outer) => if outer.t != 0x44AA then None else ParseTlvs(outer.value)
  }

  /**
    * Decodes a byte string that starts with a device administration section: 0x55AA revokes keys,
    * 0x66AA is the version and 0x77AA the minimum version.
    */
  function DecodeAdmin(section: seq<byte>): Option<AdminInfo> {
    match InnerRecords(section)
    case None => None
    case Some(inner) =>
      var keys := match Find(inner, 0x55AA) case None => Some([]) case Some(v) => UnKeys(v);
      if keys.None? then None
      else Some(AdminInfo(keys.value, Decoded(Find(inner, 0x66AA)), Decoded(Find(inner, 0x77AA))))
  }

  /** The records come in the ascending order of their types, none twice. */
  predicate Ascending(records: seq<Record>) {
    forall i, j :: 0 <= i < j < |records| ==> records[i].t < records[j].t
  }

  function Decoded(v: Option<seq<byte>>): Option<Version> {
    match v case None => None case Some(s) => UnVersion(s)
  }

  predicate KeyIds32(keys: seq<KeyId>) {
    forall i :: 0 <= i < |keys| ==> keys[i].id < 0x1_0000_0000
  }

  lemma UnVersionBack(v: Version)
    requires Version16(v)
    ensures UnVersion(VersionBytes(v)) == Some(v)
  {
    Pow256Values();
    UnLeOfLe(v.major, 2);
    UnLeOfLe(v.minor, 2);
    assert VersionBytes(v)[..2] == Le(v.major, 2) && VersionBytes(v)[2..] == Le(v.minor, 2);
  }

  lemma {:induction false} RecognisedKeys(keys: seq<KeyId>)
    requires KeyIds32(keys)
    ensures KeyIds32(Recognised(keys))
    ensures forall i :: 0 <= i < |Recognised(keys)| ==> Recognised(keys)[i].keyType != OtherType
    decreases |keys|
  {
    if keys != [] {
      RecognisedKeys(keys[..|keys| - 1]);
    }
  }

  lemma UnKeysFirst(k: KeyId, rest: seq<byte>)
    requires k.keyType != OtherType && k.id < 0x1_0000_0000
    ensures UnKeys(KeyBytes(k) + rest) == match UnKeys(rest) case None => None case Some(r) => Some([k] + r)
  {
    var s := KeyBytes(k) + rest;
    Pow256Values();
    UnLeOfLe(k.id, 4);
    assert s[1..5] == Le(k.id, 4) && s[5..] == rest;
  }

  lemma {:induction false} UnKeysBack(keys: seq<KeyId>, more: seq<KeyId>, rest: seq<byte>)
    requires KeyIds32(keys) && forall i :: 0 <= i < |keys| ==> keys[i].keyType != OtherType
    requires UnKeys(rest) == Some(more)
    ensures UnKeys(KeysBytes(keys) + rest) == Some(keys + more)
    decreases |keys|
  {
    hide KeyBytes, UnKeys;
    if keys == [] {
      assert KeysBytes(keys) + rest == rest && keys + more == more;
    } else {
      var front, k := keys[..|keys| - 1], keys[|keys| - 1];
      UnKeysFirst(k, rest);
      UnKeysBack(front, [k] + more, KeyBytes(k) + rest);
      assert KeysBytes(keys) + rest == KeysBytes(front) + (KeyBytes(k) + rest);
      assert front + ([k] + more) == keys + more;
    }
  }

  lemma ParseNothing()
    ensures ParseTlvs([]) == Some([])
  {}

  function KeyRecords(d: OptData): seq<Record> {
    if Recognised(d.revKeys) == [] then []
    else [Record(TYPE_KEY_REVOCATION_RECORD, KeysBytes(Recognised(d.revKeys)))]
  }

  function MinRecords(version: Version, d: OptData): seq<Record> {
    if !d.changeMinVersion then []
    else [Record(TYPE_ROLLBACK_PREVENTION_SEGMENT, VersionBytes(LeastVersion(version, d)))]
  }

  /** The inner records of a section with data, in order. */
  function AdminRecords(version: Version, d: OptData): seq<Record> {
    KeyRecords(d) + [Record(TYPE_FW_VERSION_NUMBER, VersionBytes(version))] + MinRecords(version, d)
  }

  lemma AdminPayloadParses(version: Version, d: OptData)
    requires KeysFit(Some(d))
    ensures ParseTlvs(AdminPayload(version, Some(d))) == Some(AdminRecords(version, d))
  {
    hide Tlv, VersionBytes, Recognised, KeysBytes, ParseTlvs;
    var keys := Recognised(d.revKeys);
    var vb := VersionBytes(version);
    var minPart := MinPart(version, d);
    var fw := Record(TYPE_FW_VERSION_NUMBER, vb);
    var mins := MinRecords(version, d);
    ParseNothing();
    if d.changeMinVersion {
      var mb := VersionBytes(LeastVersion(version, d));
      ParseFirst(TYPE_ROLLBACK_PREVENTION_SEGMENT, mb, []);
      assert Tlv(TYPE_ROLLBACK_PREVENTION_SEGMENT, mb) + [] == minPart;
      assert mins == [Record(TYPE_ROLLBACK_PREVENTION_SEGMENT, mb)] + [];
    }
    assert ParseTlvs(minPart) == Some(mins);
    ParseFirst(TYPE_FW_VERSION_NUMBER, vb, minPart);
    var tail := Tlv(TYPE_FW_VERSION_NUMBER, vb) + minPart;
    if keys != [] {
      ParseFirst(TYPE_KEY_REVOCATION_RECORD, KeysBytes(keys), tail);
    }
    assert AdminPayload(version, Some(d)) == KeyPart(d) + tail;
    assert KeyRecords(d) + ([fw] + mins) == AdminRecords(version, d);
    assert ParseTlvs(tail) == Some([fw] + mins);
    assert [] + tail == tail && [] + ([fw] + mins) == [fw] + mins;
  }

  /** The information the section was made from. */
  function AdminInfoOf(version: Version, data: Option<OptData>): AdminInfo {
    match data
    case None => AdminInfo([], None, None)
    case Some(d) =>
      AdminInfo(Recognised(d.revKeys), Some(version),
                if !d.changeMinVersion then None
                else match d.minVersion
                     case Parsed(least) => Some(least)
                     case NotGiven => Some(version)
                     case Unparsable => None)
  }

  lemma FindRecords(version: Version, d: OptData)
    ensures var r := AdminRecords(version, d);
            && Find(r, TYPE_FW_VERSION_NUMBER) == Some(VersionBytes(version))
            && Find(r, TYPE_KEY_REVOCATION_RECORD)
               == (if Recognised(d.revKeys) == [] then None else Some(KeysBytes(Recognised(d.revKeys))))
            && Find(r, TYPE_ROLLBACK_PREVENTION_SEGMENT)
               == (if !d.changeMinVersion then None
                   else Some(VersionBytes(LeastVersion(version, d))))
  {
    hide VersionBytes, Recognised, KeysBytes;
    FindAppend(KeyRecords(d) + [Record(TYPE_FW_VERSION_NUMBER, VersionBytes(version))], MinRecords(version, d));
    FindAppend(KeyRecords(d), [Record(TYPE_FW_VERSION_NUMBER, VersionBytes(version))]);
    FindOne(Record(TYPE_FW_VERSION_NUMBER, VersionBytes(version)));
    if KeyRecords(d) != [] {
      FindOne(KeyRecords(d)[0]);
    }
    if MinRecords(version, d) != [] {
      FindOne(MinRecords(version, d)[0]);
    }
  }

  lemma RecordsAscend(version: Version, d: OptData)
    ensures Ascending(AdminRecords(version, d))
  {
    hide VersionBytes, Recognised, KeysBytes;
  }

  lemma FindOne(r: Record)
    ensures forall t :: Find([r], t) == if t == r.t then Some(r.value) else None
  {
    assert [r][1..] == [];
  }

  lemma {:induction false} FindAppend(a: seq<Record>, b: seq<Record>)
    ensures forall t :: Find(a + b, t) == if Find(a, t).Some? then Find(a, t) else Find(b, t)
    decreases |a|
  {
    if a == [] {
      assert a + b == b;
    } else {
      assert (a + b)[1..] == a[1..] + b;
      FindAppend(a[1..], b);
    }
  }

  /**
    * Decoding a device administration section, whatever bytes follow it, recovers exactly the
    * recognised revoked keys in order, the version and the optional minimum version.
    */
  lemma {:induction false} AdminDecodes(version: Version, data: Option<OptData>, tail: seq<byte>)
    requires Version16(version) && KeysFit(data) && !BadMinVersion(data)
    requires data.Some? ==> KeyIds32(data.value.revKeys)
    requires data.Some? && data.value.minVersion.Parsed? ==> Version16(data.value.minVersion.v)
    ensures DecodeAdmin(AdminSection(version, data) + tail) == Some(AdminInfoOf(version, data))
    ensures Ascending(InnerRecords(AdminSection(version, data) + tail).value)
  {
    hide Tlv, VersionBytes, Recognised, KeysBytes, ParseTlvs, FirstRecord, AdminRecords, KeyIds32, UnKeys, UnVersion;
    AdminPayloadFits(version, data);
    FirstBack(TYPE_DEVICE_ADMIN_SECTION, AdminPayload(version, data), tail);
    match data
    case None => ParseNothing();
    case Some(d) =>
      AdminPayloadParses(version, d);
      RecordsAscend(version, d);
      FindRecords(version, d);
      UnVersionBack(version);
      if d.minVersion.Parsed? {
        UnVersionBack(d.minVersion.v);
      }
      var keys := Recognised(d.revKeys);
      RecognisedKeys(d.revKeys);
      NoKeysLeft();
      UnKeysBack(keys, [], []);
      assert KeysBytes(keys) + [] == KeysBytes(keys) && keys + [] == keys;
  }

  lemma NoKeysLeft()
    ensures UnKeys([]) == Some([])
  {}

  lemma AdminPayloadFits(version: Version, data: Option<OptData>)
    requires KeysFit(data)
    ensures |AdminPayload(version, data)| <= 275
  {
    hide Recognised;
  }

  // ---------------------------------------------------------------- security section

  /** suota_security_header_t */
  datatype SecurityHeader = SecurityHeader(publicKeyId: nat, mode: byte, curve: byte, hash: byte)

  function SecurityHeaderBytes(h: SecurityHeader): (s: seq<byte>)
    ensures |s| == 7
  {
    Le(h.publicKeyId, 4) + [h.mode, h.curve, h.hash]
  }

  function SecuritySection(h: SecurityHeader, signature: seq<byte>): seq<byte> {
    Tlv(TYPE_SECURITY_SECTION, SecurityHeaderBytes(h) + Tlv(TYPE_SIGNATURE_SECTION, signature))
  }

  /** fill_security_section */
  method FillSecuritySection(buffer: array<byte>, h: SecurityHeader, signature: seq<byte>) returns (size: nat)
    requires buffer.Length == 2048 && 11 + |signature| <= 1024
    modifies buffer
    ensures size == |SecuritySection(h, signature)| == 15 + |signature| && size <= buffer.Length
    ensures buffer[..size] == SecuritySection(h, signature)
  {
    hide Tlv, Patched, SecurityHeaderBytes;
    var payload := new byte[1024](_ => 0);
    ghost var empty := payload[..];
    var hb := SecurityHeaderBytes(h);
    Copy(payload, 0, hb);
    var end := PutTlv(payload, 7, TYPE_SIGNATURE_SECTION, signature);
    PatchedTwice(empty, 0, hb, Tlv(TYPE_SIGNATURE_SECTION, signature));
    PatchedPrefix(empty, hb + Tlv(TYPE_SIGNATURE_SECTION, signature));
    assert payload[..end] == payload[..][..end];
    size := WriteSection(buffer, TYPE_SECURITY_SECTION, payload[..end]);
  }

  /** The signature is the end of the section, so a new one of equal length can be put in its place. */
  lemma {:induction false} SignatureAtEnd(h: SecurityHeader, first: seq<byte>, final: seq<byte>)
    requires |first| == |final|
    ensures |SecuritySection(h, first)| == 15 + |first|
    ensures Patched(SecuritySection(h, first), 15, final) == SecuritySection(h, final)
  {
    hide Le, SecurityHeaderBytes;
    var a, b := SecuritySection(h, first), SecuritySection(h, final);
    var prefix := Le(TYPE_SECURITY_SECTION, 2) + Le(11 + |first|, 2) + SecurityHeaderBytes(h)
                  + Le(TYPE_SIGNATURE_SECTION, 2) + Le(|first|, 2);
    assert a == prefix + first && b == prefix + final;
  }
}
