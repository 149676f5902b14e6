/** Protected files: how the writer and the reader choose the sealing key of a file and keep its side file. */
module ProtectedFile {
  import opened HostFiles
  import opened MetaData

  const FS_METADATA_FILE_EXT: string := ".pfsmeta"
  const SGX_KEYPOLICY_MRENCLAVE: Word := 1
  const SGX_KEYPOLICY_MRSIGNER: Word := 2
  const ZERO_KEY_ID: Bytes32 :=
    [0, 0, 0, 0, 0, 0, 0, 0, 0, 0, 0, 0, 0, 0, 0, 0, 0, 0, 0, 0, 0, 0, 0, 0, 0, 0, 0, 0, 0, 0, 0, 0]

  datatype FileMode = CreateNew | OpenOrCreate | Append | OtherMode

  datatype Report = Report(isvSvn: Word, cpuSvn: Bytes16)

  /** Everything a call learns from outside this code; `opens` is whether `sgx_fopen` succeeds when neither the name
      nor the content of the file stands against it. */
  datatype Outside = Outside(
    report: Option<Report>,
    random: Option<Bytes32>,
    derives: KeyRequest -> bool,
    opens: bool,
    stats: string -> bool,
    removes: string -> bool,
    metaWrite: WriteFaults,
    metaRead: ReadFaults)

  function Meta(name: string): string { name + FS_METADATA_FILE_EXT }

  /** Only known bits, and at least one of MRENCLAVE and MRSIGNER. */
  predicate IsValidKeyPolicy(policy: Word) { policy < 0x40 && policy % 4 != 0 }

  // ----- The SGX protected file system, as far as keys and content go; `None` is a null handle

  ghost predicate SgxReads(d: Disk, name: string, key: Key, opens: bool) {
    opens && name != "" && name in d && d[name].Sealed? && d[name].key == key
  }

  ghost predicate SgxAppends(d: Disk, name: string, key: Key, opens: bool) {
    opens && name != "" && (name in d ==> d[name].Sealed? && d[name].key == key)
  }

  // ----- What each call returns and leaves on the disk; `None` is a thrown exception

  ghost function Exists(d: Disk, path: string, o: Outside): Option<bool> {
    if path == "" || !o.stats(path) then None else Some(path in d)
  }

  ghost function Remove(d: Disk, path: string, o: Outside): (Option<bool>, Disk) {
    match Exists(d, path, o)
    case None => (None, d)
    case Some(false) => (Some(false), d)
    case Some(true) => if o.removes(path) then (Some(true), d - {path}) else (None, d)
  }

  ghost function RemoveProtectedFile(d: Disk, name: string, o: Outside): (Option<bool>, Disk) {
    var (r, after) := Remove(d, name, o);
    if r == Some(true) then Remove(after, Meta(name), o) else (r, after)
  }

  /** The metadata of a file that is being created, and the key it is created under. */
  function NewMetaData(policy: Word, keyId: Bytes32, report: Report): FileMetaData {
    if policy == SGX_KEYPOLICY_MRSIGNER
    then FileMetaData(1, policy, ZERO_KEY_ID, report.isvSvn, report.cpuSvn)
    else FileMetaData(0, policy, keyId, report.isvSvn, report.cpuSvn)
  }

  function WriterKey(policy: Word, m: FileMetaData): Key {
    if policy == SGX_KEYPOLICY_MRSIGNER then AutoKey else SealKey(m.GetKeyRequest())
  }

  function ReaderKey(m: FileMetaData): Key {
    if m.legacyMode == 1 then AutoKey else SealKey(m.GetKeyRequest())
  }

  /** The metadata a writer makes up, if it gets as far as opening the file with it. */
  ghost function Fresh(policy: Word, o: Outside): Option<FileMetaData> {
    if o.report.None? || (policy != SGX_KEYPOLICY_MRSIGNER && o.random.None?) then None
    else
      var m := NewMetaData(policy, if o.random.Some? then o.random.value else ZERO_KEY_ID, o.report.value);
      if policy != SGX_KEYPOLICY_MRSIGNER && !o.derives(m.GetKeyRequest()) then None else Some(m)
  }

  /** The last step of creating a file: its side file. */
  ghost function SaveMeta(d: Disk, name: string, key: Key, m: FileMetaData, hash: Hash, o: Outside)
    : (Option<Key>, Disk)
  {
    var (s, after) := SaveOutcome(d, Meta(name), m, hash, o.metaWrite);
    (if s == Saved then Some(key) else None, after)
  }

  ghost function OpenForWrite(d: Disk, name: string, policy: Word, hash: Hash, o: Outside): (Option<Key>, Disk) {
    match Fresh(policy, o)
    case None => (None, d)
    case Some(m) =>
      var key := WriterKey(policy, m);
      if !o.opens || name == "" then (None, d)
      else SaveMeta(d[name := Sealed(key, [])], name, key, m, hash, o)
  }

  /** The checks an existing side file must pass; of the CPU security version only the first two bytes are compared. */
  predicate MayAppend(m: FileMetaData, policy: Word, report: Report) {
    && m.keyPolicy == policy
    && (policy == SGX_KEYPOLICY_MRSIGNER ==> m.legacyMode == 1)
    && m.isvSvn == report.isvSvn
    && m.cpuSvn[..2] == report.cpuSvn[..2]
  }

  ghost function OpenKnown(d: Disk, name: string, policy: Word, m: FileMetaData, o: Outside): (Option<Key>, Disk) {
    var key := WriterKey(policy, m);
    if policy != SGX_KEYPOLICY_MRSIGNER && !o.derives(m.GetKeyRequest()) then (None, d)
    else if !SgxAppends(d, name, key, o.opens) then (None, d)
    else (Some(key), if name in d then d else d[name := Sealed(key, [])])
  }

  ghost function OpenForAppend(d: Disk, name: string, policy: Word, hash: Hash, o: Outside): (Option<Key>, Disk) {
    if o.report.None? then (None, d)
    else
      match Exists(d, Meta(name), o)
      case None => (None, d)
      case Some(true) => (
        match LoadOutcome(d, Meta(name), hash, o.metaRead)
        case None => (None, d)
        case Some(m) =>
          if MayAppend(m, policy, o.report.value) then OpenKnown(d, name, policy, m, o) else (None, d))
      case Some(false) => (
        match Fresh(policy, o)
        case None => (None, d)
        case Some(m) =>
          var (file, after) := OpenKnown(d, name, policy, m, o);
          if file.None? then (None, d) else SaveMeta(after, name, file.value, m, hash, o))
  }

  ghost predicate NothingThere(d: Disk, name: string, o: Outside) {
    Exists(d, name, o) == Some(false) && Exists(d, Meta(name), o) == Some(false)
  }

  /** The writer's constructor. */
  ghost function OpenWriter(d: Disk, name: string, mode: FileMode, policy: Word, hash: Hash, o: Outside)
    : (r: (Option<Key>, Disk))
    ensures r.0.Some? ==> name in r.1 && r.1[name].Sealed? && r.1[name].key == r.0.value
  {
    if !IsValidKeyPolicy(policy) then (None, d)
    else
      match mode
      case CreateNew => if NothingThere(d, name, o) then OpenForWrite(d, name, policy, hash, o) else (None, d)
      case OpenOrCreate => OpenForWrite(d, name, policy, hash, o)
      case Append => OpenForAppend(d, name, policy, hash, o)
      case OtherMode => (None, d)
  }

  /** The reader's constructor. */
  ghost function OpenReader(d: Disk, name: string, hash: Hash, o: Outside): Option<Key> {
    match LoadOutcome(d, Meta(name), hash, o.metaRead)
    case None =>
      if Exists(d, Meta(name), o) == Some(false) && SgxReads(d, name, AutoKey, o.opens) then Some(AutoKey) else None
    case Some(m) =>
      var key := ReaderKey(m);
      if (m.legacyMode == 1 || o.derives(m.GetKeyRequest())) && SgxReads(d, name, key, o.opens) then Some(key) else None
  }

  // ----- The calls themselves

  method CallExists(host: Host, path: string, o: Outside) returns (r: Option<bool>)
    ensures r == Exists(host.files, path, o)
  {
    if path == "" || !o.stats(path) {
      return None;
    }
    r := Some(path in host.files);
  }

  method CallRemove(host: Host, path: string, o: Outside) returns (r: Option<bool>)
    modifies host
    ensures (r, host.files) == Remove(old(host.files), path, o)
  {
    r := CallExists(host, path, o);
    if r != Some(true) {
      return;
    }
    if !o.removes(path) {
      return None;
    }
    host.files := host.files - {path};
  }

  method CallRemoveProtectedFile(host: Host, name: string, o: Outside) returns (r: Option<bool>)
    modifies host
    ensures (r, host.files) == RemoveProtectedFile(old(host.files), name, o)
  {
    r := CallRemove(host, name, o);
    if r == Some(true) {
      r := CallRemove(host, Meta(name), o);
    }
  }

  /** `sgx_fopen` with "w", "a" and "r". */
  method SgxOpenWrite(host: Host, name: string, key: Key, opens: bool) returns (file: Option<Key>)
    modifies host
    ensures file == if opens && name != "" then Some(key) else None
    ensures host.files == if file.Some? then old(host.files)[name := Sealed(key, [])] else old(host.files)
  {
    if !opens || name == "" {
      return None;
    }
    host.files := host.files[name := Sealed(key, [])];
    file := Some(key);
  }

  method SgxOpenAppend(host: Host, name: string, key: Key, opens: bool) returns (file: Option<Key>)
    modifies host
    ensures file == if SgxAppends(old(host.files), name, key, opens) then Some(key) else None
    ensures host.files == if file.Some? && name !in old(host.files) then old(host.files)[name := Sealed(key, [])]
                          else old(host.files)
  {
    if !opens || name == "" {
      return None;
    }
    if name in host.files {
      return if host.files[name].Sealed? && host.files[name].key == key then Some(key) else None;
    }
    host.files := host.files[name := Sealed(key, [])];
    file := Some(key);
  }

  method SgxOpenRead(host: Host, name: string, key: Key, opens: bool) returns (file: Option<Key>)
    ensures file == if SgxReads(host.files, name, key, opens) then Some(key) else None
  {
    if !opens || name == "" || name !in host.files || host.files[name].Plain? || host.files[name].key != key {
      return None;
    }
    file := Some(key);
  }

  /** `OpenFileForWrite` and `OpenFileForAppend`: a side file that cannot be written throws out of `ToFile`; the
      clean-up after a refused path cannot be reached, for the side file's name is never empty. */
  method OpenFileForWrite(host: Host, name: string, metaName: string, policy: Word, hash: Hash, o: Outside)
    returns (file: Option<Key>)
    requires metaName == Meta(name)
    modifies host
    ensures (file, host.files) == OpenForWrite(old(host.files), name, policy, hash, o)
  {
    if o.report.None? {
      return None;
    }
    var report := o.report.value;
    var metadata;
    if policy == SGX_KEYPOLICY_MRSIGNER {
      metadata := FileMetaData(1, policy, ZERO_KEY_ID, report.isvSvn, report.cpuSvn);
      file := SgxOpenWrite(host, name, AutoKey, o.opens);
    } else {
      if o.random.None? {
        return None;
      }
      metadata := FileMetaData(0, policy, o.random.value, report.isvSvn, report.cpuSvn);
      var keyRequest := metadata.GetKeyRequest();
      if !o.derives(keyRequest) {
        return None;
      }
      file := SgxOpenWrite(host, name, SealKey(keyRequest), o.opens);
    }
    if file.None? {
      return;
    }
    var saving := ToFile(metadata, host, metaName, hash, o.metaWrite);
    if saving != Saved {
      file := None;
    }
  }

  method OpenFileForAppend(host: Host, name: string, metaName: string, policy: Word, hash: Hash, o: Outside)
    returns (file: Option<Key>)
    requires metaName == Meta(name)
    modifies host
    ensures (file, host.files) == OpenForAppend(old(host.files), name, policy, hash, o)
  {
    if o.report.None? {
      return None;
    }
    var report := o.report.value;
    var metafile: Option<FileMetaData> := None;
    var found := CallExists(host, metaName, o);
    if found.None? {
      return None;
    }
    if found.value {
      metafile := FromFile(host, metaName, hash, o.metaRead);
      if metafile.None? {
        return None;
      }
      var m := metafile.value;
      if m.GetKeyRequest().keyPolicy != policy {
        return None;
      }
      if policy == SGX_KEYPOLICY_MRSIGNER && m.legacyMode != 1 {
        return None;
      }
      if m.isvSvn != report.isvSvn || m.cpuSvn[..2] != report.cpuSvn[..2] {
        return None;
      }
    }
    var metadata := FileMetaData(1, policy, ZERO_KEY_ID, report.isvSvn, report.cpuSvn);
    if policy == SGX_KEYPOLICY_MRSIGNER {
      file := SgxOpenAppend(host, name, AutoKey, o.opens);
    } else {
      var keyRequest;
      if metafile.None? {
        if o.random.None? {
          return None;
        }
        metadata := FileMetaData(0, policy, o.random.value, report.isvSvn, report.cpuSvn);
        keyRequest := metadata.GetKeyRequest();
      } else {
        keyRequest := metafile.value.GetKeyRequest();
      }
      if !o.derives(keyRequest) {
        return None;
      }
      file := SgxOpenAppend(host, name, SealKey(keyRequest), o.opens);
    }
    if file.None? {
      return;
    }
    if metafile.None? {
      var saving := ToFile(metadata, host, metaName, hash, o.metaWrite);
      if saving != Saved {
        file := None;
      }
    }
  }

  /** A writer: the open file, if any, named by the key it is written under. */
  class ProtectedFileWriter {
    const host: Host
    const fileName: string
    var file: Option<Key>

    ghost predicate Valid()
      reads this, host
    {
      file.Some? ==> fileName in host.files && host.files[fileName].Sealed? && host.files[fileName].key == file.value
    }

    constructor (host: Host, fileName: string)
      ensures this.host == host && this.fileName == fileName && file == None
    {
      this.host, this.fileName, file := host, fileName, None;
    }

    /** The body of the constructor in the original; an exception leaves no file open. */
    method Open(mode: FileMode, policy: Word, hash: Hash, o: Outside) returns (ok: bool)
      requires file.None?
      modifies this, host
      ensures (file, host.files) == OpenWriter(old(host.files), fileName, mode, policy, hash, o)
      ensures ok == file.Some? && Valid()
    {
      if !IsValidKeyPolicy(policy) {
        return false;
      }
      var metaName := Meta(fileName);
      match mode {
        case CreateNew =>
          var found := CallExists(host, fileName, o);
          if found != Some(false) {
            return false;
          }
          found := CallExists(host, metaName, o);
          if found != Some(false) {
            return false;
          }
          file := OpenFileForWrite(host, fileName, metaName, policy, hash, o);
        case OpenOrCreate =>
          file := OpenFileForWrite(host, fileName, metaName, policy, hash, o);
        case Append =>
          file := OpenFileForAppend(host, fileName, metaName, policy, hash, o);
        case OtherMode =>
          return false;
      }
      ok := file.Some?;
    }

    /** One write; `taken` is how many bytes `sgx_fwrite` accepts. */
    method Write(data: seq<Byte>, taken: nat) returns (ok: bool)
      requires Valid() && file.Some?
      modifies host
      ensures Valid()
      ensures ok <==> data != [] && taken >= |data|
      ensures host.files == old(host.files)[fileName :=
        Sealed(file.value, old(host.files)[fileName].data + if ok then data else data[..Min(taken, |data|)])]
    {
      if |data| == 0 {
        assert host.files[fileName].data + data[..Min(taken, |data|)] == host.files[fileName].data;
        assert host.files == host.files[fileName := host.files[fileName]];
        return false;
      }
      var count := Min(taken, |data|);
      host.files := host.files[fileName := Sealed(file.value, host.files[fileName].data + data[..count])];
      ok := count == |data|;
      assert data[..|data|] == data;
    }

    method Close(closes: bool) returns (ok: bool)
      modifies this`file
      ensures ok == (old(file).None? || closes)
      ensures file == if ok then None else old(file)
    {
      ok := true;
      if file.Some? {
        if !closes {
          return false;
        }
        file := None;
      }
    }
  }

  /** The content after one call of `Write`, and whether the call returned normally. */
  function WriteOne(content: seq<Byte>, data: seq<Byte>, taken: nat): (seq<Byte>, bool) {
    (content + data[..Min(taken, |data|)], data != [] && taken >= |data|)
  }

  class ProtectedFileReader {
    const host: Host
    const fileName: string
    var file: Option<Key>
    var position: nat

    ghost predicate Valid()
      reads this, host
    {
      file.Some? ==>
        && fileName in host.files && host.files[fileName].Sealed? && host.files[fileName].key == file.value
        && position <= |host.files[fileName].data|
    }

    constructor (host: Host, fileName: string)
      ensures this.host == host && this.fileName == fileName && file == None
    {
      this.host, this.fileName, file := host, fileName, None;
    }

    method Open(hash: Hash, o: Outside) returns (ok: bool)
      requires file.None?
      modifies this
      ensures file == OpenReader(host.files, fileName, hash, o)
      ensures ok == file.Some? && Valid()
      ensures ok ==> position == 0
    {
      position := 0;
      var metaName := Meta(fileName);
      var metaData := FromFile(host, metaName, hash, o.metaRead);
      if metaData.None? {
        var found := CallExists(host, metaName, o);
        if found != Some(false) {
          return false;
        }
      }
      if metaData.None? || metaData.value.legacyMode == 1 {
        file := SgxOpenRead(host, fileName, AutoKey, o.opens);
      } else {
        var keyRequest := metaData.value.GetKeyRequest();
        if !o.derives(keyRequest) {
          return false;
        }
        file := SgxOpenRead(host, fileName, SealKey(keyRequest), o.opens);
      }
      ok := file.Some?;
    }

    /** At most `size` bytes from the current position. An error in `sgx_fread` may come after some bytes: the call
        throws only if there are none. So do a size of zero and a file that is not open. */
    method Read(size: nat, errorAfter: Option<nat>) returns (r: Option<seq<Byte>>)
      requires Valid()
      modifies this`position
      ensures Valid()
      ensures r.None? <==> file.None? || size == 0 || errorAfter == Some(0)
                           || (errorAfter.Some? && old(position) == |host.files[fileName].data|)
      ensures r.None? ==> position == old(position)
      ensures r.Some? ==>
        && position == Min(Min(old(position) + size, |host.files[fileName].data|),
                           old(position) + if errorAfter.Some? then errorAfter.value else size)
        && r.value == host.files[fileName].data[old(position)..position]
    {
      if file.None? || size == 0 {
        return None;
      }
      var data := host.files[fileName].data;
      var bytesRead := Min(size, |data| - position);
      if errorAfter.Some? {
        bytesRead := Min(bytesRead, errorAfter.value);
      }
      if bytesRead == 0 && errorAfter.Some? {
        return None;
      }
      r := Some(data[position..position + bytesRead]);
      position := position + bytesRead;
    }
  }
}
