/** The `.pfsmeta` side file: its byte layout, and how it is written and read back. */
module MetaData {
  import opened HostFiles

  type Word = w: int | 0 <= w < 0x1_0000
  type Bytes32 = s: seq<Byte> | |s| == 32 witness seq(32, _ => 0)
  type Bytes16 = s: seq<Byte> | |s| == 16 witness seq(16, _ => 0)

  /** SHA-256, or any other function to 32 bytes. */
  type Hash = seq<Byte> -> Bytes32

  datatype FileMetaData =
    FileMetaData(legacyMode: Byte, keyPolicy: Word, keyId: Bytes32, isvSvn: Word, cpuSvn: Bytes16)
  {
    function GetKeyRequest(): KeyRequest {
      KeyRequest(keyPolicy, keyId, cpuSvn, isvSvn)
    }
  }

  const FS_META_TAG: seq<Byte> := [0x7b, 0x1d, 0x3f, 0x75, 0xe3, 0x2e, 0x29, 0x20]
  const FS_METADATA_VERSION: Byte := 1
  const META_SIZE: nat := 94
  const DIGEST_SIZE: nat := 32

  /** A two-byte integer as it lies in memory. */
  function LittleEndian(w: Word): seq<Byte> { [w % 256, w / 256] }

  function FromLittleEndian(s: seq<Byte>): Word
    requires |s| == 2
  {
    var (low: int, high: int) := (s[0], s[1]);
    low + 256 * high
  }

  /** The tag, the version and the two settings. */
  function Head(m: FileMetaData): (r: seq<Byte>)
    ensures |r| == 12
  {
    FS_META_TAG + [FS_METADATA_VERSION] + [m.legacyMode] + LittleEndian(m.keyPolicy)
  }

  /** Everything before the digest. */
  function Body(m: FileMetaData): (r: seq<Byte>)
    ensures |r| == META_SIZE - DIGEST_SIZE
  {
    Head(m) + m.keyId + LittleEndian(m.isvSvn) + m.cpuSvn
  }

  function Encode(m: FileMetaData, hash: Hash): seq<Byte> {
    Body(m) + hash(Body(m))
  }

  /** The digest is looked for at a fixed place, but it is taken over all but the last 32 bytes of the file. */
  function Decode(b: seq<Byte>, hash: Hash): Option<FileMetaData> {
    if |b| >= META_SIZE && b[..8] == FS_META_TAG && b[8] == FS_METADATA_VERSION
       && hash(b[..|b| - DIGEST_SIZE]) == b[62..94]
    then Some(FileMetaData(b[9], FromLittleEndian(b[10..12]), b[12..44], FromLittleEndian(b[44..46]), b[46..62]))
    else None
  }

  datatype Saving = Saved | Refused | Threw

  ghost function SaveOutcome(d: Disk, path: string, m: FileMetaData, hash: Hash, f: WriteFaults): (Saving, Disk) {
    if path == "" then (Refused, d)
    else
      var (ret, after) := WriteOutcome(d, path, Encode(m, hash), f);
      (if ret == 0 then Saved else Threw, after)
  }

  ghost function LoadOutcome(d: Disk, path: string, hash: Hash, f: ReadFaults): Option<FileMetaData> {
    if path == "" then None
    else
      var (ret, bytes) := ReadOutcome(d, path, f);
      if ret == 0 then Decode(bytes, hash) else None
  }

  /** A cursor that fills a buffer from the front. */
  class MemoryWriter {
    const buffer: array<Byte>
    var position: nat
    ghost var written: seq<Byte>

    ghost predicate Valid()
      reads this, buffer
    {
      position <= buffer.Length && written == buffer[..position]
    }

    constructor (size: nat)
      ensures Valid() && fresh(buffer) && buffer.Length == size && written == []
    {
      buffer := new Byte[size](_ => 0);
      position := 0;
      written := [];
    }

    method Write(data: seq<Byte>) returns (ok: bool)
      requires Valid()
      modifies this, buffer
      ensures Valid()
      ensures ok == (|old(written)| + |data| <= buffer.Length)
      ensures written == if ok then old(written) + data else old(written)
    {
      ok := position + |data| <= buffer.Length;
      if ok {
        forall i | 0 <= i < |data| {
          buffer[position + i] := data[i];
        }
        position := position + |data|;
        written := written + data;
      }
    }
  }

  /** A cursor that hands out a byte string from the front. */
  class MemoryWalker {
    const bytes: seq<Byte>
    var position: nat

    ghost predicate Valid()
      reads this
    {
      position <= |bytes|
    }

    constructor (bytes: seq<Byte>)
      ensures Valid() && this.bytes == bytes && position == 0
    {
      this.bytes := bytes;
      position := 0;
    }

    method Move(size: nat) returns (ok: bool, out: seq<Byte>)
      requires Valid()
      modifies this
      ensures Valid()
      ensures ok == (old(position) + size <= |bytes|)
      ensures position == old(position) + if ok then size else 0
      ensures ok ==> out == bytes[old(position)..position]
    {
      ok, out := position + size <= |bytes|, [];
      if ok {
        out := bytes[position..position + size];
        position := position + size;
      }
    }
  }

  method WriteHead(m: FileMetaData, writer: MemoryWriter)
    requires writer.Valid() && writer.written == [] && writer.buffer.Length == META_SIZE
    modifies writer, writer.buffer
    ensures writer.Valid() && writer.written == Head(m)
  {
    hide MemoryWriter.Valid;
    var _ := writer.Write(FS_META_TAG);
    var _ := writer.Write([FS_METADATA_VERSION]);
    var _ := writer.Write([m.legacyMode]);
    var _ := writer.Write(LittleEndian(m.keyPolicy));
  }

  method WriteBody(m: FileMetaData, writer: MemoryWriter)
    requires writer.Valid() && writer.written == [] && writer.buffer.Length == META_SIZE
    modifies writer, writer.buffer
    ensures writer.Valid() && writer.written == Body(m)
  {
    hide MemoryWriter.Valid, Head;
    WriteHead(m, writer);
    var _ := writer.Write(m.keyId);
    var _ := writer.Write(LittleEndian(m.isvSvn));
    var _ := writer.Write(m.cpuSvn);
  }

  /** `ToFile` up to the write: the buffer is as long as the fields together, so no single write is refused. */
  method Serialize(m: FileMetaData, hash: Hash) returns (content: seq<Byte>)
    ensures content == Encode(m, hash)
  {
    hide Body;
    var writer := new MemoryWriter(META_SIZE);
    WriteBody(m, writer);
    var covered := writer.buffer[..writer.buffer.Length - DIGEST_SIZE];
    assert covered == writer.written;
    var _ := writer.Write(hash(covered));
    content := writer.buffer[..];
    assert content == writer.written;
  }

  method ToFile(m: FileMetaData, host: Host, path: string, hash: Hash, faults: WriteFaults) returns (r: Saving)
    modifies host
    ensures (r, host.files) == SaveOutcome(old(host.files), path, m, hash, faults)
  {
    if path == "" {
      return Refused;
    }
    var content := Serialize(m, hash);
    var ret := host.WriteFile(path, content, faults);
    r := if ret < 0 then Threw else Saved;
  }

  /** `FromFile` once the file is read: one field after the other. */
  method Parse(content: seq<Byte>, hash: Hash) returns (r: Option<FileMetaData>)
    ensures r == Decode(content, hash)
  {
    var walker := new MemoryWalker(content);
    var ok, tag := walker.Move(|FS_META_TAG|);
    if !ok || tag != FS_META_TAG {
      return None;
    }
    var version, legacyMode, keyPolicy, keyId, isvSvn, cpuSvn, digest;
    ok, version := walker.Move(1);
    if !ok || version[0] != FS_METADATA_VERSION {
      return None;
    }
    ok, legacyMode := walker.Move(1);
    if !ok {
      return None;
    }
    ok, keyPolicy := walker.Move(2);
    if !ok {
      return None;
    }
    ok, keyId := walker.Move(32);
    if !ok {
      return None;
    }
    ok, isvSvn := walker.Move(2);
    if !ok {
      return None;
    }
    ok, cpuSvn := walker.Move(16);
    if !ok {
      return None;
    }
    ok, digest := walker.Move(DIGEST_SIZE);
    if !ok || hash(content[..|content| - DIGEST_SIZE]) != digest {
      return None;
    }
    r := Some(FileMetaData(legacyMode[0], FromLittleEndian(keyPolicy), keyId, FromLittleEndian(isvSvn), cpuSvn));
  }

  method FromFile(host: Host, path: string, hash: Hash, faults: ReadFaults) returns (r: Option<FileMetaData>)
    ensures r == LoadOutcome(host.files, path, hash, faults)
  {
    if path == "" {
      return None;
    }
    var ret, content := host.ReadFile(path, faults);
    if ret < 0 {
      return None;
    }
    r := Parse(content, hash);
  }

  /** What `ToFile` writes, `FromFile` reads back, for every value. */
  lemma DecodeOfEncode(m: FileMetaData, hash: Hash)
    ensures Decode(Encode(m, hash), hash) == Some(m)
  {
    var b := Encode(m, hash);
    assert b[..62] == Body(m) && b[62..94] == hash(Body(m));
    assert b[..8] == Body(m)[..8] == FS_META_TAG;
    assert b[10..12] == LittleEndian(m.keyPolicy);
    assert b[12..44] == m.keyId;
    assert b[44..46] == LittleEndian(m.isvSvn);
    assert b[46..62] == m.cpuSvn;
  }

  /** Conversely, an accepted file of the proper length is what `ToFile` writes for the value read from it. */
  lemma EncodeOfDecode(b: seq<Byte>, hash: Hash)
    requires |b| == META_SIZE && Decode(b, hash).Some?
    ensures b == Encode(Decode(b, hash).value, hash)
  {
    var m := Decode(b, hash).value;
    assert LittleEndian(m.keyPolicy) == b[10..12];
    assert LittleEndian(m.isvSvn) == b[44..46];
    assert b[..62] == b[..8] + [b[8]] + [b[9]] + b[10..12] + b[12..44] + b[44..46] + b[46..62];
    assert b == b[..62] + b[62..94];
  }

  /** A longer file is not refused for its length: it is accepted exactly when the two digests agree, and then
      they are digests of different strings. */
  lemma AppendedBytes(m: FileMetaData, tail: seq<Byte>, hash: Hash)
    requires tail != []
    ensures var b := Encode(m, hash) + tail;
            var covered := b[..|b| - DIGEST_SIZE];
            && covered != Body(m)
            && (Decode(b, hash) == if hash(covered) == hash(Body(m)) then Some(m) else None)
  {
    var b := Encode(m, hash) + tail;
    var whole := Encode(m, hash);
    DecodeOfEncode(m, hash);
    assert b[..8] == whole[..8] && b[10..12] == whole[10..12] && b[12..44] == whole[12..44];
    assert b[44..46] == whole[44..46] && b[46..62] == whole[46..62] && b[62..94] == whole[62..94];
    assert whole[..62] == Body(m) && whole[62..94] == hash(Body(m));
  }

  /** Byte for byte what is written: tag, version, legacy mode, key policy with its low byte first, key id, ISV version
      with its low byte first, CPU version, and the digest of all that. */
  lemma Layout(m: FileMetaData, hash: Hash)
    ensures var b := Encode(m, hash);
            && |b| == 94
            && b[..8] == [0x7b, 0x1d, 0x3f, 0x75, 0xe3, 0x2e, 0x29, 0x20]
            && b[8] == 1 && b[9] == m.legacyMode
            && m.keyPolicy % 256 == b[10] && m.keyPolicy / 256 == b[11]
            && b[12..44] == m.keyId
            && m.isvSvn % 256 == b[44] && m.isvSvn / 256 == b[45]
            && b[46..62] == m.cpuSvn
            && b[62..] == hash(b[..62])
  {
    var b := Encode(m, hash);
    assert b[..62] == Body(m) && b[62..] == hash(Body(m));
    assert b[10..12] == LittleEndian(m.keyPolicy) && b[44..46] == LittleEndian(m.isvSvn);
    assert b[10] == b[10..12][0] && b[11] == b[10..12][1] && b[44] == b[44..46][0] && b[45] == b[44..46][1];
  }

  /** Saving and loading through the host: whatever was loaded before, a successful save is what every later
      successful read loads. */
  lemma SaveThenLoad(d: Disk, path: string, m: FileMetaData, hash: Hash, w: WriteFaults, r: ReadFaults)
    ensures var (s, after) := SaveOutcome(d, path, m, hash, w);
            && (s == Refused <==> path == "")
            && (s == Saved ==> after == d[path := Plain(Encode(m, hash))])
            && (s == Saved ==>
                  LoadOutcome(after, path, hash, r) == if ReadOutcome(after, path, r).0 == 0 then Some(m) else None)
  {
    DecodeOfEncode(m, hash);
  }
}
