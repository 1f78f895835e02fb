/*
 * Reading an extension's API version back out of its wasm module
 * (crates/extension_host/src/wasm_host.rs): the version lives in a custom
 * section named "zed:api-version" holding the six bytes the extension API
 * build script writes.
 */
module WasmHost {
  import opened Wrappers
  import Build = ExtensionApiBuild

  type u8 = Build.u8

  datatype SemanticVersion = SemanticVersion(major: nat, minor: nat, patch: nat)

  /** `u16::from_be_bytes`. */
  function FromBigEndian(hi: u8, lo: u8): (v: nat)
    ensures v < 0x1_0000
  {
    hi as nat * 0x100 + lo as nat
  }

  /**
   * `parse_wasm_extension_version_custom_section`: exactly six bytes hold
   * the major, minor and patch versions as big-endian `u16`s; any other
   * length is no version.
   */
  function ParseVersionSection(data: seq<u8>): (r: Option<SemanticVersion>)
    ensures r.Some? <==> |data| == 6
    ensures r.Some? ==> r.value.major < 0x1_0000 && r.value.minor < 0x1_0000 && r.value.patch < 0x1_0000
  {
    if |data| == 6 then
      Some(SemanticVersion(FromBigEndian(data[0], data[1]), FromBigEndian(data[2], data[3]), FromBigEndian(data[4], data[5])))
    else None
  }

  /** The bytes the build script writes decode to the version they encode. */
  lemma VersionBytesRoundTrip(major: Build.u16, minor: Build.u16, patch: Build.u16)
    ensures ParseVersionSection(Build.VersionBytes(major, minor, patch))
         == Some(SemanticVersion(major as nat, minor as nat, patch as nat))
  {
    var b := Build.VersionBytes(major, minor, patch);
    assert b[0] == b[..2][0] && b[1] == b[..2][1];
    assert b[2] == b[2..4][0] && b[3] == b[2..4][1];
    assert b[4] == b[4..][0] && b[5] == b[4..][1];
  }

  /** Every six-byte section is the encoding of the version it decodes to. */
  lemma SectionBytesRoundTrip(data: seq<u8>)
    requires |data| == 6
    ensures var v := ParseVersionSection(data).value;
      Build.VersionBytes(v.major as Build.u16, v.minor as Build.u16, v.patch as Build.u16) == data
  {
    var v := ParseVersionSection(data).value;
    var b := Build.VersionBytes(v.major as Build.u16, v.minor as Build.u16, v.patch as Build.u16);
    assert b[..2] == [data[0], data[1]];
    assert b[2..4] == [data[2], data[3]];
    assert b[4..] == [data[4], data[5]];
    assert b == b[..2] + b[2..4] + b[4..];
  }

  const VersionSectionName: string := "zed:api-version"

  /** A payload of the wasm module, as the parser reports it. */
  datatype Payload = CustomSection(name: string, data: seq<u8>) | OtherPayload

  /** One step of the parser: a payload, or a malformed module. */
  datatype ParsedPart = Parsed(payload: Payload) | ParseFailure

  datatype VersionError =
    | MalformedModule
    | InvalidVersionSection(data: seq<u8>)
    | MissingVersionSection

  predicate IsVersionSection(part: ParsedPart)
  {
    part.Parsed? && part.payload.CustomSection? && part.payload.name == VersionSectionName
  }

  /** The section loop from part `parts[0]` on, with the version found so far. */
  function ScanVersion(parts: seq<ParsedPart>, version: Option<SemanticVersion>): (r: Result<SemanticVersion, VersionError>)
    decreases |parts|
  {
    if parts == [] then
      if version.Some? then Ok(version.value) else Err(MissingVersionSection)
    else if parts[0].ParseFailure? then Err(MalformedModule)
    else if IsVersionSection(parts[0]) then
      var data := parts[0].payload.data;
      match ParseVersionSection(data)
      case None => Err(InvalidVersionSection(data))
      case Some(v) => ScanVersion(parts[1..], Some(v))
    else ScanVersion(parts[1..], version)
  }

  /** `parse_wasm_extension_version`: walks the payloads, keeping the last version section. */
  method ParseExtensionVersion(parts: seq<ParsedPart>) returns (r: Result<SemanticVersion, VersionError>)
    ensures r == ScanVersion(parts, None)
  {
    var version: Option<SemanticVersion> := None;
    var i := 0;
    while i < |parts|
      invariant 0 <= i <= |parts|
      invariant ScanVersion(parts[i..], version) == ScanVersion(parts, None)
    {
      assert parts[i..][1..] == parts[i + 1..];
      var part := parts[i];
      if part.ParseFailure? {
        return Err(MalformedModule);
      }
      if IsVersionSection(part) {
        version := ParseVersionSection(part.payload.data);
        if version.None? {
          return Err(InvalidVersionSection(part.payload.data));
        }
      }
      i := i + 1;
    }
    assert parts[i..] == [];
    if version.None? {
      return Err(MissingVersionSection);
    }
    return Ok(version.value);
  }

  /** The data of the last version section, if any. */
  function LastVersionData(parts: seq<ParsedPart>): (d: Option<seq<u8>>)
    decreases |parts|
  {
    if parts == [] then None
    else match LastVersionData(parts[1..])
      case Some(data) => Some(data)
      case None => if IsVersionSection(parts[0]) then Some(parts[0].payload.data) else None
  }

  /** A well-formed module whose version sections are all six bytes long. */
  predicate WellFormed(parts: seq<ParsedPart>)
  {
    forall i | 0 <= i < |parts| :: parts[i].Parsed? && (IsVersionSection(parts[i]) ==> |parts[i].payload.data| == 6)
  }

  /**
   * In a well-formed module the last version section decides the version,
   * and a module without one has no version.
   */
  lemma {:induction false} LastSectionWins(parts: seq<ParsedPart>, version: Option<SemanticVersion>)
    requires WellFormed(parts)
    ensures LastVersionData(parts).Some? ==>
      (ScanVersion(parts, version).Ok? &&
       Some(ScanVersion(parts, version).value) == ParseVersionSection(LastVersionData(parts).value))
    ensures LastVersionData(parts).None? ==>
      ScanVersion(parts, version) == if version.Some? then Ok(version.value) else Err(MissingVersionSection)
    decreases |parts|
  {
    if parts != [] {
      assert WellFormed(parts[1..]) by {
        forall i | 0 <= i < |parts[1..]| ensures parts[1..][i] == parts[i + 1] {}
      }
      assert parts[0].Parsed?;
      if IsVersionSection(parts[0]) {
        LastSectionWins(parts[1..], ParseVersionSection(parts[0].payload.data));
      } else {
        LastSectionWins(parts[1..], version);
      }
    }
  }

  /** Parsing a module that carries no version section reports it missing. */
  lemma NoVersionSection(parts: seq<ParsedPart>)
    requires WellFormed(parts) && forall i | 0 <= i < |parts| :: !IsVersionSection(parts[i])
    ensures ScanVersion(parts, None) == Err(MissingVersionSection)
  {
    NoLastVersion(parts);
    LastSectionWins(parts, None);
  }

  lemma {:induction false} NoLastVersion(parts: seq<ParsedPart>)
    requires forall i | 0 <= i < |parts| :: !IsVersionSection(parts[i])
    ensures LastVersionData(parts).None?
    decreases |parts|
  {
    if parts != [] {
      assert !IsVersionSection(parts[0]);
      NoLastVersion(parts[1..]);
    }
  }

  /**
   * A version section of the wrong length that the parser reaches is an
   * error, whatever follows it.
   */
  lemma {:induction false} InvalidSectionFails(parts: seq<ParsedPart>, k: nat, version: Option<SemanticVersion>)
    requires k < |parts| && IsVersionSection(parts[k]) && |parts[k].payload.data| != 6
    ensures ScanVersion(parts, version).Err?
    decreases k
  {
    if k > 0 && parts[0].Parsed? {
      assert parts[1..][k - 1] == parts[k];
      if IsVersionSection(parts[0]) && |parts[0].payload.data| == 6 {
        InvalidSectionFails(parts[1..], k - 1, ParseVersionSection(parts[0].payload.data));
      } else if !IsVersionSection(parts[0]) {
        InvalidSectionFails(parts[1..], k - 1, version);
      }
    }
  }

  const U32Max: nat := 0xFFFF_FFFF

  /**
   * The weigher of the incremental compilation cache: key length plus
   * value length, saturating at `u32::MAX`.
   */
  function CacheWeight(key: seq<u8>, value: seq<u8>): (w: nat)
    ensures w <= U32Max
    ensures w == |key| + |value| || (w == U32Max && |key| + |value| > U32Max)
  {
    if |key| + |value| <= U32Max then |key| + |value| else U32Max
  }
}
