/** The file system outside the enclave, and the two calls that read and write a whole plain file in blocks. */
module HostFiles {

  type Byte = b: int | 0 <= b < 256

  datatype Option<+T> = None | Some(value: T)

  /** What identifies a sealing key: the signer's automatic key, or the key request it is derived from. */
  datatype Key = AutoKey | SealKey(request: KeyRequest)

  /** The fields of `sgx_key_request_t` that vary; key name and masks are constants. */
  datatype KeyRequest = KeyRequest(keyPolicy: nat, keyId: seq<Byte>, cpuSvn: seq<Byte>, isvSvn: nat)

  /** A plain file, or a file of the SGX protected file system: the key it is encrypted under and its content. */
  datatype Node = Plain(bytes: seq<Byte>) | Sealed(key: Key, data: seq<Byte>)

  type Disk = map<string, Node>

  const SSGX_FS_BUFFER_SIZE: nat := 4096
  const SSGX_FS_MAX_FILE_SIZE: nat := 102_400

  /** The first bytes of every file of the SGX protected file system. */
  const SGX_FILE_ID: seq<Byte> := [0x45, 0x4c, 0x49, 0x46, 0x5f, 0x58, 0x47, 0x53]

  /** The bytes of a file as a plain reader sees them; of a protected file only the fixed beginning is known. */
  function Raw(n: Node): seq<Byte> {
    match n
    case Plain(bytes) => bytes
    case Sealed(_, _) => SGX_FILE_ID
  }

  function Min(a: nat, b: nat): nat { if a <= b then a else b }

  /** What can go wrong outside while a file is written: `accepts(i)` is how many bytes `fwrite` would take of the block
      that starts at byte `i`, and `removes` whether the file is removed after a short write. */
  datatype WriteFaults = WriteFaults(opens: bool, locks: bool, accepts: nat -> nat, removes: bool)

  datatype ReadFaults = ReadFaults(opens: bool, locks: bool, stats: bool, supplies: nat -> nat)

  /** How far a transfer in blocks gets from `start`: to the end, or into the first block that comes short. */
  function Through(size: nat, start: nat, takes: nat -> nat): (end: nat)
    requires start <= size
    ensures start <= end <= size
    decreases size - start
  {
    if start == size then size
    else
      var chunk := Min(size - start, SSGX_FS_BUFFER_SIZE);
      if takes(start) < chunk then start + takes(start) else Through(size, start + chunk, takes)
  }

  /** What `ssgx_ocall_write_file` returns and leaves on the disk. */
  ghost function WriteOutcome(d: Disk, path: string, data: seq<Byte>, f: WriteFaults): (r: (int, Disk))
    ensures r.0 == 0 ==> r.1 == d[path := Plain(data)]
  {
    if path == "" then (-1, d)
    else if |data| > SSGX_FS_MAX_FILE_SIZE then (-3, d)
    else if !f.opens then (-4, d)
    else if !f.locks then (-5, d[path := Plain([])])
    else
      var end := Through(|data|, 0, f.accepts);
      if end == |data| then (0, d[path := Plain(data)])
      else if f.removes then (-6, d - {path})
      else (-6, d[path := Plain(data[..end])])
  }

  ghost function ReadOutcome(d: Disk, path: string, f: ReadFaults): (int, seq<Byte>) {
    if path == "" then (-1, [])
    else if path !in d || !f.opens then (-2, [])
    else if !f.locks then (-3, [])
    else if !f.stats then (-4, [])
    else
      var bytes := Raw(d[path]);
      if |bytes| > SSGX_FS_MAX_FILE_SIZE then (-5, [])
      else if Through(|bytes|, 0, f.supplies) == |bytes| then (0, bytes)
      else (-7, [])
  }

  lemma RemovedAgain(d: Disk, path: string, node: Node)
    ensures d[path := node] - {path} == d - {path}
  {
  }

  class Host {
    var files: Disk

    constructor ()
      ensures files == map[]
    {
      files := map[];
    }

    /** `ssgx_ocall_write_file`: blocks of at most 4096 bytes; a short `fwrite` removes the file. */
    method WriteFile(path: string, data: seq<Byte>, faults: WriteFaults) returns (ret: int)
      modifies this
      ensures (ret, files) == WriteOutcome(old(files), path, data, faults)
    {
      var size := |data|;
      if path == "" {
        return -1;
      }
      if size > SSGX_FS_MAX_FILE_SIZE {
        return -3;
      }
      if !faults.opens {
        return -4;
      }
      files := files[path := Plain([])];
      if !faults.locks {
        return -5;
      }
      var writeSize := 0;
      while writeSize < size
        invariant 0 <= writeSize <= size
        invariant files == old(files)[path := Plain(data[..writeSize])]
        invariant Through(size, 0, faults.accepts) == Through(size, writeSize, faults.accepts)
      {
        var chunkSize := Min(size - writeSize, SSGX_FS_BUFFER_SIZE);
        var count := Min(faults.accepts(writeSize), chunkSize);
        assert data[..writeSize] + data[writeSize..writeSize + count] == data[..writeSize + count];
        files := files[path := Plain(files[path].bytes + data[writeSize..writeSize + count])];
        assert files == old(files)[path := Plain(data[..writeSize + count])];
        if count != chunkSize {
          assert Through(size, 0, faults.accepts) == writeSize + count;
          if faults.removes {
            RemovedAgain(old(files), path, files[path]);
            files := files - {path};
          }
          return -6;
        }
        writeSize := writeSize + count;
      }
      assert data[..size] == data;
      ret := 0;
    }

    /** `ssgx_ocall_read_file`. */
    method ReadFile(path: string, faults: ReadFaults) returns (ret: int, data: seq<Byte>)
      ensures (ret, data) == ReadOutcome(files, path, faults)
    {
      data := [];
      if path == "" {
        return -1, [];
      }
      if path !in files || !faults.opens {
        return -2, [];
      }
      if !faults.locks {
        return -3, [];
      }
      if !faults.stats {
        return -4, [];
      }
      var bytes := Raw(files[path]);
      var fileSize := |bytes|;
      if fileSize == 0 {
        return 0, [];
      } else if fileSize > SSGX_FS_MAX_FILE_SIZE {
        return -5, [];
      }
      var totalRead := 0;
      while totalRead < fileSize
        invariant 0 <= totalRead <= fileSize
        invariant data == bytes[..totalRead]
        invariant Through(fileSize, 0, faults.supplies) == Through(fileSize, totalRead, faults.supplies)
      {
        var chunk := Min(fileSize - totalRead, SSGX_FS_BUFFER_SIZE);
        var count := Min(faults.supplies(totalRead), chunk);
        if count != chunk {
          return -7, [];
        }
        data := data + bytes[totalRead..totalRead + count];
        assert data == bytes[..totalRead + count];
        totalRead := totalRead + count;
      }
      assert bytes[..fileSize] == bytes;
      ret := 0;
    }
  }

  /** A transfer gets to the end exactly when no block comes short. */
  lemma {:induction false} ThroughExact(size: nat, start: nat, takes: nat -> nat)
    requires start <= size && start % SSGX_FS_BUFFER_SIZE == 0
    ensures Through(size, start, takes) == size <==>
            forall i: nat :: start <= i < size && i % SSGX_FS_BUFFER_SIZE == 0 ==>
              takes(i) >= Min(size - i, SSGX_FS_BUFFER_SIZE)
    decreases size - start
  {
    if start < size {
      var next := start + SSGX_FS_BUFFER_SIZE;
      assert forall i: nat :: start < i < next ==> i % SSGX_FS_BUFFER_SIZE != 0 by {
        forall i: nat | start < i < next
          ensures i % SSGX_FS_BUFFER_SIZE != 0
        {
          WithinBlock(start, i);
        }
      }
      if next <= size {
        ThroughExact(size, next, takes);
      } else {
        assert Through(size, size, takes) == size;
      }
    }
  }

  lemma WithinBlock(start: nat, i: nat)
    requires start % SSGX_FS_BUFFER_SIZE == 0 && start < i < start + SSGX_FS_BUFFER_SIZE
    ensures i % SSGX_FS_BUFFER_SIZE != 0
  {
  }

  /** A successful write followed by a successful read returns exactly what was written, and a write succeeds exactly
      when nothing fails. A short write leaves no file behind if the file can be removed, and otherwise a proper prefix
      of the data; other files are not touched. */
  lemma WriteThenRead(d: Disk, path: string, data: seq<Byte>, w: WriteFaults, r: ReadFaults)
    ensures var (ret, after) := WriteOutcome(d, path, data, w);
            && (ret == 0 && ReadOutcome(after, path, r).0 == 0 ==> ReadOutcome(after, path, r).1 == data)
            && (ret == 0 <==>
                  && path != "" && |data| <= SSGX_FS_MAX_FILE_SIZE && w.opens && w.locks
                  && forall i: nat :: i < |data| && i % SSGX_FS_BUFFER_SIZE == 0 ==>
                       w.accepts(i) >= Min(|data| - i, SSGX_FS_BUFFER_SIZE))
            && (ret == -6 ==>
                  if w.removes then path !in after && ReadOutcome(after, path, r) == (-2, [])
                  else path in after && after[path].Plain? && after[path].bytes < data)
            && forall other :: other != path ==>
                 (other in after <==> other in d) && (other in d ==> after[other] == d[other])
  {
    ThroughExact(|data|, 0, w.accepts);
  }

  /** Where a transfer stops short: in the first block that does not go through whole. */
  predicate StopsAt(size: nat, start: nat, takes: nat -> nat, i: nat) {
    && start <= i < size && i % SSGX_FS_BUFFER_SIZE == 0 && takes(i) < Min(size - i, SSGX_FS_BUFFER_SIZE)
    && forall k: nat :: start <= k < i && k % SSGX_FS_BUFFER_SIZE == 0 ==> takes(k) >= SSGX_FS_BUFFER_SIZE
  }

  lemma {:induction false} ThroughStops(size: nat, start: nat, takes: nat -> nat) returns (i: nat)
    requires start <= size && start % SSGX_FS_BUFFER_SIZE == 0 && Through(size, start, takes) < size
    ensures StopsAt(size, start, takes, i) && Through(size, start, takes) == i + takes(i)
    decreases size - start
  {
    i := start;
    var next := start + SSGX_FS_BUFFER_SIZE;
    if takes(start) >= Min(size - start, SSGX_FS_BUFFER_SIZE) {
      assert next < size by {
        assert Through(size, size, takes) == size;
      }
      i := ThroughStops(size, next, takes);
      forall k: nat | start <= k < i && k % SSGX_FS_BUFFER_SIZE == 0
        ensures takes(k) >= SSGX_FS_BUFFER_SIZE
      {
        if start < k < next {
          WithinBlock(start, k);
        }
      }
    }
  }

  /** A short write that cannot be undone leaves the blocks that were taken and the part of the next one. */
  lemma ShortWrite(d: Disk, path: string, data: seq<Byte>, f: WriteFaults) returns (i: nat)
    requires WriteOutcome(d, path, data, f).0 == -6 && !f.removes
    ensures StopsAt(|data|, 0, f.accepts, i) && i + f.accepts(i) <= |data|
    ensures WriteOutcome(d, path, data, f).1 == d[path := Plain(data[..i + f.accepts(i)])]
  {
    i := ThroughStops(|data|, 0, f.accepts);
  }

  /** Which return value of a write stands for which failure. */
  lemma WriteCodes(d: Disk, path: string, data: seq<Byte>, f: WriteFaults)
    ensures var ret := WriteOutcome(d, path, data, f).0;
            && (ret == -1 <==> path == "")
            && (ret == -3 <==> path != "" && |data| > 102400)
            && (ret == -4 <==> path != "" && |data| <= 102400 && !f.opens)
            && (ret == -5 <==> path != "" && |data| <= 102400 && f.opens && !f.locks)
            && (ret == -6 <==> path != "" && |data| <= 102400 && f.opens && f.locks
                               && exists i: nat :: i < |data| && i % 4096 == 0 && f.accepts(i) < Min(|data| - i, 4096))
            && (ret != 0 && ret != -5 && ret != -6 ==> WriteOutcome(d, path, data, f).1 == d)
            && (ret == -5 ==> WriteOutcome(d, path, data, f).1 == d[path := Plain([])])
            && ret in {0, -1, -3, -4, -5, -6}
  {
    ThroughExact(|data|, 0, f.accepts);
  }

  /** A read succeeds exactly when nothing fails, and then yields what is in the file; of a protected file only its
      first bytes, which spell "ELIF_XGS". Every failure has its return value. */
  lemma ReadSucceeds(d: Disk, path: string, f: ReadFaults)
    ensures var (ret, data) := ReadOutcome(d, path, f);
            var there := path != "" && path in d && f.opens;
            var ready := there && f.locks && f.stats;
            && (ret == 0 <==>
                  && ready && |Raw(d[path])| <= 102400
                  && forall i: nat :: i < |Raw(d[path])| && i % 4096 == 0 ==>
                       f.supplies(i) >= Min(|Raw(d[path])| - i, 4096))
            && (ret == 0 && d[path].Plain? ==> data == d[path].bytes)
            && (ret == 0 && d[path].Sealed? ==>
                  |data| == 8 && forall i :: 0 <= i < 8 ==> data[i] == "ELIF_XGS"[i] as int)
            && (ret == -1 <==> path == "") && (ret == -2 <==> path != "" && !there)
            && (ret == -3 <==> there && !f.locks) && (ret == -4 <==> there && f.locks && !f.stats)
            && (ret == -5 <==> ready && |Raw(d[path])| > 102400)
            && ret in {0, -1, -2, -3, -4, -5, -7} && (ret != 0 ==> data == [])
  {
    if path in d {
      ThroughExact(|Raw(d[path])|, 0, f.supplies);
    }
  }
}
