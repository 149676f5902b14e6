/** Whole runs over protected files: which key each file ends up under, and what is read back from it. */
module ProtectedRuns {
  import opened HostFiles
  import opened MetaData
  import opened ProtectedFile

  datatype WriteCall = WriteCall(data: seq<Byte>, taken: nat)

  /** One step: a writer opened, written to and closed; or one of the two removing calls. */
  datatype Op =
    | Session(name: string, mode: FileMode, policy: Word, writes: seq<WriteCall>, o: Outside)
    | RemovePath(path: string, o: Outside)
    | RemoveFile(name: string, o: Outside)

  /** The content after a list of writes that stops at the first exception. */
  function WriteAll(content: seq<Byte>, writes: seq<WriteCall>): (seq<Byte>, bool)
    decreases |writes|
  {
    if writes == [] then (content, true)
    else
      var (next, normal) := WriteOne(content, writes[0].data, writes[0].taken);
      if normal then WriteAll(next, writes[1..]) else (next, false)
  }

  /** Whether a step returns normally, and the disk it leaves. */
  ghost function Apply(d: Disk, op: Op, hash: Hash): (bool, Disk) {
    match op
    case Session(name, mode, policy, writes, o) =>
      var (file, after) := OpenWriter(d, name, mode, policy, hash, o);
      if file.None? then (false, after)
      else
        var (content, normal) := WriteAll(after[name].data, writes);
        (normal, after[name := Sealed(file.value, content)])
    case RemovePath(path, o) => var (r, after) := Remove(d, path, o); (r.Some?, after)
    case RemoveFile(name, o) => var (r, after) := RemoveProtectedFile(d, name, o); (r.Some?, after)
  }

  ghost function End(d: Disk, ops: seq<Op>, hash: Hash): Disk
    decreases |ops|
  {
    if ops == [] then d else End(Apply(d, ops[0], hash).1, ops[1..], hash)
  }

  ghost predicate AllNormal(d: Disk, ops: seq<Op>, hash: Hash)
    decreases |ops|
  {
    ops == [] || (Apply(d, ops[0], hash).0 && AllNormal(Apply(d, ops[0], hash).1, ops[1..], hash))
  }

  method WriteEach(writer: ProtectedFileWriter, writes: seq<WriteCall>) returns (normal: bool)
    requires writer.Valid() && writer.file.Some?
    modifies writer.host
    ensures writer.Valid()
    ensures var (content, all) := WriteAll(old(writer.host.files)[writer.fileName].data, writes);
            && normal == all
            && writer.host.files == old(writer.host.files)[writer.fileName := Sealed(writer.file.value, content)]
  {
    ghost var before := writer.host.files;
    ghost var name, key := writer.fileName, writer.file.value;
    ghost var start := before[name].data;
    ghost var content := start;
    assert before == before[name := Sealed(key, start)];
    for i := 0 to |writes|
      invariant writer.Valid()
      invariant writer.host.files == before[name := Sealed(key, content)]
      invariant WriteAll(start, writes) == WriteAll(content, writes[i..])
    {
      assert writes[i..][0] == writes[i] && writes[i..][1..] == writes[i + 1..];
      ghost var data := writes[i].data;
      assert data[..|data|] == data;
      content := WriteOne(content, data, writes[i].taken).0;
      normal := writer.Write(writes[i].data, writes[i].taken);
      assert writer.host.files == before[name := Sealed(key, content)];
      if !normal {
        return;
      }
    }
    normal := true;
  }

  /** A session through the writer's own methods does what `Apply` says. */
  method RunSession(host: Host, s: Op, closes: bool, hash: Hash) returns (normal: bool)
    requires s.Session?
    modifies host
    ensures (normal, host.files) == (Apply(old(host.files), s, hash).0 && closes, Apply(old(host.files), s, hash).1)
  {
    hide OpenWriter, WriteAll;
    var writer := new ProtectedFileWriter(host, s.name);
    normal := writer.Open(s.mode, s.policy, hash, s.o);
    if !normal {
      return;
    }
    normal := WriteEach(writer, s.writes);
    if !normal {
      return;
    }
    normal := writer.Close(closes);
  }

  // ----- Agreement on the key

  /** The metadata a reader finds when the reading itself does not fail. */
  ghost function StoredMeta(d: Disk, name: string, hash: Hash): Option<FileMetaData> {
    if Meta(name) in d && |Raw(d[Meta(name)])| <= SSGX_FS_MAX_FILE_SIZE then Decode(Raw(d[Meta(name)]), hash) else None
  }

  predicate Marked(m: FileMetaData) { m.legacyMode == 1 <==> m.keyPolicy == SGX_KEYPOLICY_MRSIGNER }

  /** The side file of `name`, if it can be decoded, marks legacy mode properly and names the key of the file. */
  ghost predicate AgreeOn(d: Disk, name: string, hash: Hash) {
    StoredMeta(d, name, hash).Some? ==>
      && Marked(StoredMeta(d, name, hash).value)
      && (name in d && d[name].Sealed? ==> d[name].key == ReaderKey(StoredMeta(d, name, hash).value))
  }

  ghost predicate Agree(d: Disk, hash: Hash) { forall name :: AgreeOn(d, name, hash) }

  /** The step truncates a file under one key while an old side file that names another key stays in place, because
      the side file cannot be opened for writing. */
  ghost predicate Stale(d: Disk, op: Op, hash: Hash) {
    && op.Session? && op.mode == OpenOrCreate
    && IsValidKeyPolicy(op.policy) && op.name != "" && op.o.opens && Fresh(op.policy, op.o).Some?
    && !op.o.metaWrite.opens
    && StoredMeta(d, op.name, hash).Some?
    && ReaderKey(StoredMeta(d, op.name, hash).value) != WriterKey(op.policy, Fresh(op.policy, op.o).value)
  }

  predicate SameAt(d: Disk, after: Disk, path: string) {
    (path in after <==> path in d) && (path in d ==> after[path] == d[path])
  }

  lemma MetaInjective(a: string, b: string)
    ensures Meta(a) == Meta(b) <==> a == b
    ensures Meta(a) != a && Meta(a) != ""
  {
    if Meta(a) == Meta(b) {
      assert a == Meta(a)[..|a|] && b == Meta(b)[..|b|];
    }
  }

  lemma LoadIsStored(d: Disk, name: string, hash: Hash, f: ReadFaults)
    ensures LoadOutcome(d, Meta(name), hash, f) in {None, StoredMeta(d, name, hash)}
  {
  }

  /** The key a new file is created under is the one a reader derives from the metadata written for it. */
  lemma FreshIsMarked(policy: Word, o: Outside)
    requires Fresh(policy, o).Some?
    ensures var m := Fresh(policy, o).value; Marked(m) && m.keyPolicy == policy && ReaderKey(m) == WriterKey(policy, m)
  {
  }

  /** Sealing a file anew leaves every other name as it was, and its own name to its side file. */
  lemma SealedFileAgrees(d: Disk, name: string, key: Key, data: seq<Byte>, hash: Hash)
    requires forall other :: other != name ==> AgreeOn(d, other, hash)
    ensures var after := d[name := Sealed(key, data)];
            && StoredMeta(after, name, hash) == StoredMeta(d, name, hash)
            && forall other :: other != name ==> AgreeOn(after, other, hash)
  {
    var after := d[name := Sealed(key, data)];
    MetaInjective(name, name);
    forall other | other != name
      ensures AgreeOn(after, other, hash)
    {
      assert AgreeOn(d, other, hash);
      if Meta(other) == name {
        assert StoredMeta(after, other, hash) == None;
      }
    }
  }

  /** What a saved side file, or one that could not be saved, says afterwards; no other file is touched. */
  lemma SavingEffect(d: Disk, name: string, key: Key, m: FileMetaData, hash: Hash, o: Outside)
    ensures var (file, after) := SaveMeta(d, name, key, m, hash, o);
            && file in {None, Some(key)}
            && (file.Some? ==> after == d[Meta(name) := Plain(Encode(m, hash))]
                               && StoredMeta(after, name, hash) == Some(m))
            && (!o.metaWrite.opens ==> file.None? && after == d)
            && (file.None? && o.metaWrite.opens ==>
                  && StoredMeta(after, name, hash) == None
                  && (Meta(name) !in after <==> o.metaWrite.locks && o.metaWrite.removes))
            && (o.metaWrite.opens && Meta(name) in after ==> after[Meta(name)].Plain?)
            && forall path :: path != Meta(name) ==> SameAt(d, after, path)
  {
    MetaInjective(name, name);
    DecodeOfEncode(m, hash);
  }

  lemma SavedMetaAgrees(d: Disk, name: string, key: Key, m: FileMetaData, hash: Hash, o: Outside)
    requires forall other :: other != name ==> AgreeOn(d, other, hash)
    requires name in d && d[name].Sealed? && d[name].key == key
    requires Marked(m) && ReaderKey(m) == key
    ensures var after := SaveMeta(d, name, key, m, hash, o).1;
            && name in after && after[name] == d[name]
            && (Agree(after, hash) <==> o.metaWrite.opens || AgreeOn(d, name, hash))
  {
    hide SaveMeta, Encode, Decode, Marked;
    var after := SaveMeta(d, name, key, m, hash, o).1;
    MetaInjective(name, name);
    SavingEffect(d, name, key, m, hash, o);
    assert SameAt(d, after, name);
    forall other | other != name
      ensures AgreeOn(after, other, hash)
    {
      assert AgreeOn(d, other, hash);
      MetaInjective(name, other);
      assert SameAt(d, after, Meta(other));
      assert other != Meta(name) ==> SameAt(d, after, other);
    }
    if o.metaWrite.opens {
      assert AgreeOn(after, name, hash);
    } else {
      assert after == d;
    }
  }

  lemma RemovalAgrees(d: Disk, path: string, hash: Hash)
    requires Agree(d, hash)
    ensures Agree(d - {path}, hash)
  {
    forall name
      ensures AgreeOn(d - {path}, name, hash)
    {
      assert AgreeOn(d, name, hash);
    }
  }

  lemma CreatingAgrees(d: Disk, name: string, policy: Word, hash: Hash, o: Outside)
    requires Agree(d, hash) && Fresh(policy, o).Some? && o.opens && name != ""
    ensures var (file, after) := OpenForWrite(d, name, policy, hash, o);
            var m := Fresh(policy, o).value;
            && (Agree(after, hash) <==>
                  o.metaWrite.opens || StoredMeta(d, name, hash).None?
                  || ReaderKey(StoredMeta(d, name, hash).value) == WriterKey(policy, m))
            && (file.Some? ==> o.metaWrite.opens)
  {
    var m := Fresh(policy, o).value;
    var key := WriterKey(policy, m);
    FreshIsMarked(policy, o);
    SealedFileAgrees(d, name, key, [], hash);
    assert AgreeOn(d, name, hash);
    SavedMetaAgrees(d[name := Sealed(key, [])], name, key, m, hash, o);
  }

  lemma AppendingAgrees(d: Disk, name: string, policy: Word, hash: Hash, o: Outside)
    requires Agree(d, hash)
    ensures Agree(OpenForAppend(d, name, policy, hash, o).1, hash)
  {
    var (file, after) := OpenForAppend(d, name, policy, hash, o);
    if after != d {
      if Exists(d, Meta(name), o) == Some(true) {
        LoadIsStored(d, name, hash, o.metaRead);
        assert AgreeOn(d, name, hash);
        var m := StoredMeta(d, name, hash).value;
        SealedFileAgrees(d, name, WriterKey(policy, m), [], hash);
      } else {
        FreshIsMarked(policy, o);
        var m := Fresh(policy, o).value;
        var created := OpenKnown(d, name, policy, m, o).1;
        SealedFileAgrees(d, name, WriterKey(policy, m), [], hash);
        assert AgreeOn(d, name, hash) && StoredMeta(d, name, hash).None?;
        SavedMetaAgrees(created, name, WriterKey(policy, m), m, hash, o);
      }
    }
  }

  /** Writing through an open file changes no key. */
  lemma WritingAgrees(d: Disk, name: string, data: seq<Byte>, hash: Hash)
    requires name in d && d[name].Sealed?
    ensures Agree(d[name := Sealed(d[name].key, data)], hash) <==> Agree(d, hash)
  {
    var after := d[name := Sealed(d[name].key, data)];
    forall other
      ensures AgreeOn(after, other, hash) <==> AgreeOn(d, other, hash)
    {
      if Meta(other) == name {
        assert StoredMeta(after, other, hash) == None == StoredMeta(d, other, hash);
      }
    }
  }

  lemma OpeningAgrees(d: Disk, s: Op, hash: Hash)
    requires Agree(d, hash) && s.Session?
    ensures Agree(OpenWriter(d, s.name, s.mode, s.policy, hash, s.o).1, hash) <==> !Stale(d, s, hash)
    ensures OpenWriter(d, s.name, s.mode, s.policy, hash, s.o).0.Some? ==> !Stale(d, s, hash)
  {
    if s.mode == Append {
      AppendingAgrees(d, s.name, s.policy, hash, s.o);
    } else if Fresh(s.policy, s.o).Some? && s.o.opens && s.name != "" {
      CreatingAgrees(d, s.name, s.policy, hash, s.o);
    }
  }

  /** A step keeps agreement exactly when it does not leave a stale side file; a step that returns normally never
      does. */
  lemma AgreementStep(d: Disk, op: Op, hash: Hash)
    requires Agree(d, hash)
    ensures Agree(Apply(d, op, hash).1, hash) <==> !Stale(d, op, hash)
    ensures Apply(d, op, hash).0 ==> !Stale(d, op, hash)
  {
    match op
    case Session(name, mode, policy, writes, o) =>
      OpeningAgrees(d, op, hash);
      var (file, after) := OpenWriter(d, name, mode, policy, hash, o);
      if file.Some? {
        WritingAgrees(after, name, WriteAll(after[name].data, writes).0, hash);
      }
    case RemovePath(path, o) =>
      RemovalAgrees(d, path, hash);
    case RemoveFile(name, o) =>
      RemovalAgrees(d, name, hash);
      RemovalAgrees(d - {name}, Meta(name), hash);
  }

  ghost predicate AgreeThroughout(d: Disk, ops: seq<Op>, hash: Hash)
    decreases |ops|
  {
    Agree(d, hash) && (ops == [] || AgreeThroughout(Apply(d, ops[0], hash).1, ops[1..], hash))
  }

  ghost predicate NeverStale(d: Disk, ops: seq<Op>, hash: Hash)
    decreases |ops|
  {
    ops == [] || (!Stale(d, ops[0], hash) && NeverStale(Apply(d, ops[0], hash).1, ops[1..], hash))
  }

  /** Over whole runs, with any exceptions on the way: agreement holds all along exactly when no step leaves a stale
      side file. A run whose steps all return normally never does. */
  lemma {:induction false} KeyAgreement(d: Disk, ops: seq<Op>, hash: Hash)
    requires Agree(d, hash)
    ensures AgreeThroughout(d, ops, hash) <==> NeverStale(d, ops, hash)
    ensures AgreeThroughout(d, ops, hash) ==> Agree(End(d, ops, hash), hash)
    ensures AllNormal(d, ops, hash) ==> NeverStale(d, ops, hash)
    decreases |ops|
  {
    hide Apply, Agree, Stale;
    if ops != [] {
      AgreementStep(d, ops[0], hash);
      if Agree(Apply(d, ops[0], hash).1, hash) {
        KeyAgreement(Apply(d, ops[0], hash).1, ops[1..], hash);
      }
    }
  }

  lemma EmptyDiskAgrees(hash: Hash)
    ensures Agree(map[], hash)
  {
  }

  /** Under agreement the reader opens a file that has metadata under the very key it is sealed with, unless something
      outside fails. */
  lemma ReaderFindsTheKey(d: Disk, name: string, hash: Hash, o: Outside)
    requires AgreeOn(d, name, hash) && StoredMeta(d, name, hash).Some?
    requires name in d && d[name].Sealed?
    ensures OpenReader(d, name, hash, o) ==
            if LoadOutcome(d, Meta(name), hash, o.metaRead).Some? && o.opens && name != ""
               && (d[name].key.SealKey? ==> o.derives(d[name].key.request))
            then Some(d[name].key) else None
  {
    LoadIsStored(d, name, hash, o.metaRead);
  }

  /** After a stale step no reader opens the file, whatever happens outside. */
  lemma StaleIsUnreadable(d: Disk, op: Op, hash: Hash, o: Outside)
    requires Stale(d, op, hash)
    ensures OpenReader(Apply(d, op, hash).1, op.name, hash, o) == None
  {
    MetaInjective(op.name, op.name);
    LoadIsStored(Apply(d, op, hash).1, op.name, hash, o.metaRead);
  }

  // ----- What is read back

  function Concatenated(writes: seq<WriteCall>): seq<Byte> {
    if writes == [] then [] else writes[0].data + Concatenated(writes[1..])
  }

  /** How many bytes of them are taken: all of a call's, until a call throws because it gets none or not all of them
      are taken. */
  function TakenLength(writes: seq<WriteCall>): nat
    decreases |writes|
  {
    if writes == [] then 0
    else if writes[0].data != [] && writes[0].taken >= |writes[0].data|
    then |writes[0].data| + TakenLength(writes[1..])
    else if writes[0].taken < |writes[0].data| then writes[0].taken
    else |writes[0].data|
  }

  predicate AllTaken(writes: seq<WriteCall>) {
    forall i :: 0 <= i < |writes| ==> writes[i].data != [] && writes[i].taken >= |writes[i].data|
  }

  /** All writes return normally exactly when none is empty and all bytes are taken, and then nothing is missing. */
  lemma {:induction false} AllOrPrefix(content: seq<Byte>, writes: seq<WriteCall>)
    ensures WriteAll(content, writes).1 <==> AllTaken(writes)
    ensures TakenLength(writes) <= |Concatenated(writes)|
    ensures AllTaken(writes) ==> TakenLength(writes) == |Concatenated(writes)|
    decreases |writes|
  {
    if writes != [] {
      AllOrPrefix(WriteOne(content, writes[0].data, writes[0].taken).0, writes[1..]);
      assert AllTaken(writes) <==> writes[0].data != [] && writes[0].taken >= |writes[0].data| && AllTaken(writes[1..])
      by {
        assert writes == [writes[0]] + writes[1..];
      }
    }
  }

  /** The bytes that a list of writes puts into the file: the beginning of all that was to be written. */
  function Taken(writes: seq<WriteCall>): seq<Byte> {
    AllOrPrefix([], writes);
    Concatenated(writes)[..TakenLength(writes)]
  }

  /** The key a reader is told to use: the one of the side file, or the automatic key when there is none. */
  ghost function NamedKey(d: Disk, name: string, hash: Hash): Option<Key> {
    if Meta(name) !in d then Some(AutoKey)
    else if StoredMeta(d, name, hash).None? then None
    else Some(ReaderKey(StoredMeta(d, name, hash).value))
  }

  /** The same after the side file could not be saved: the old one stays, or nothing is left of it, or a part that
      cannot be decoded. */
  ghost function NamedAfterFailure(d: Disk, name: string, hash: Hash, f: WriteFaults): Option<Key> {
    if !f.opens then NamedKey(d, name, hash)
    else if f.locks && f.removes then Some(AutoKey)
    else None
  }

  /** What a file should be: not there, or there with all bytes written since it was last opened anew. `named` is
      whether a reader is told to use its key: always, unless a writer threw because it could not save the side file
      and none has been opened since. */
  datatype Held = Absent | Bytes(bytes: seq<Byte>, named: bool)

  /** What an opened writer starts from. */
  function Start(before: Held, mode: FileMode): seq<Byte> {
    if mode == Append && before.Bytes? then before.bytes else []
  }

  /** What a step makes of it, from what its calls return. */
  ghost function Content(d: Disk, before: Held, op: Op, name: string, hash: Hash): Held {
    match op
    case Session(n, mode, policy, writes, o) =>
      if n != name then before
      else
        var (file, after) := OpenWriter(d, name, mode, policy, hash, o);
        if file.Some? then Bytes(Start(before, mode) + Taken(writes), true)
        else if after == d || Fresh(policy, o).None? then before
        else
          var key := WriterKey(policy, Fresh(policy, o).value);
          Bytes(Start(before, mode), NamedAfterFailure(d, name, hash, o.metaWrite) == Some(key))
    case RemovePath(path, o) => if path == name && Remove(d, name, o).0.Some? then Absent else before
    case RemoveFile(n, o) => if n == name && Remove(d, name, o).0.Some? then Absent else before
  }

  ghost function Contents(d: Disk, before: Held, ops: seq<Op>, name: string, hash: Hash): Held
    decreases |ops|
  {
    if ops == [] then before
    else Contents(Apply(d, ops[0], hash).1, Content(d, before, ops[0], name, hash), ops[1..], name, hash)
  }

  /** The step does not use the side file of `name` as a file of its own, nor `name` as a side file. */
  predicate Separate(op: Op, name: string) {
    match op
    case Session(n, _, _, _, _) => n != Meta(name) && Meta(n) != name
    case RemovePath(path, _) => path != Meta(name)
    case RemoveFile(n, _) => n != Meta(name) && Meta(n) != name
  }

  ghost predicate MetaMarked(d: Disk, name: string, hash: Hash) {
    StoredMeta(d, name, hash).Some? ==> Marked(StoredMeta(d, name, hash).value)
  }

  /** The file is what it should be, and the reader will find its key or not. */
  ghost predicate Holds(d: Disk, name: string, content: Held, hash: Hash) {
    && MetaMarked(d, name, hash)
    && match content
       case Absent => name !in d
       case Bytes(bytes, named) =>
         && name in d && d[name].Sealed? && d[name].data == bytes
         && (named <==> NamedKey(d, name, hash) == Some(d[name].key))
  }

  lemma {:induction false} WriteAllTakes(content: seq<Byte>, writes: seq<WriteCall>)
    ensures WriteAll(content, writes).0 == content + Taken(writes)
    decreases |writes|
  {
    if writes != [] {
      var data, n, rest := writes[0].data, TakenLength(writes), Concatenated(writes[1..]);
      var (next, normal) := WriteOne(content, data, writes[0].taken);
      AllOrPrefix(content, writes);
      if normal {
        WriteAllTakes(next, writes[1..]);
        assert next == content + data;
        assert (data + rest)[..n] == data + rest[..n - |data|];
        assert (content + data) + rest[..n - |data|] == content + (data + rest[..n - |data|]);
      } else {
        assert (data + rest)[..n] == data[..n];
      }
    } else {
      assert content + [] == content;
    }
  }

  /** A step touches no path but its own and that of its side file. */
  lemma SavingFrame(d: Disk, name: string, key: Key, m: FileMetaData, hash: Hash, o: Outside, path: string)
    requires path != Meta(name)
    ensures SameAt(d, SaveMeta(d, name, key, m, hash, o).1, path)
  {
  }

  lemma OpeningFrame(d: Disk, name: string, mode: FileMode, policy: Word, hash: Hash, o: Outside, path: string)
    requires path != name && path != Meta(name)
    ensures SameAt(d, OpenWriter(d, name, mode, policy, hash, o).1, path)
  {
    if Fresh(policy, o).Some? {
      hide SaveMeta, LoadOutcome, Fresh, NewMetaData;
      var m := Fresh(policy, o).value;
      var key := WriterKey(policy, m);
      SavingFrame(d[name := Sealed(key, [])], name, key, m, hash, o, path);
      SavingFrame(d, name, key, m, hash, o, path);
    }
  }

  lemma ApplyFrame(d: Disk, op: Op, hash: Hash, path: string)
    requires op.RemovePath? ==> path != op.path
    requires !op.RemovePath? ==> path != op.name && path != Meta(op.name)
    ensures SameAt(d, Apply(d, op, hash).1, path)
  {
    hide OpenWriter;
    if op.Session? {
      OpeningFrame(d, op.name, op.mode, op.policy, hash, op.o, path);
    }
  }

  lemma SealingKeepsMeta(d: Disk, name: string, key: Key, data: seq<Byte>, hash: Hash)
    ensures var after := d[name := Sealed(key, data)];
            && StoredMeta(after, name, hash) == StoredMeta(d, name, hash)
            && NamedKey(after, name, hash) == NamedKey(d, name, hash)
  {
    MetaInjective(name, name);
  }

  /** The last step of creating a file that is already there under its key. */
  lemma SavingHolds(d: Disk, name: string, m: FileMetaData, hash: Hash, o: Outside)
    requires MetaMarked(d, name, hash) && Marked(m)
    requires name in d && d[name].Sealed? && d[name].key == ReaderKey(m)
    ensures var (file, after) := SaveMeta(d, name, d[name].key, m, hash, o);
            var named := file.Some? || NamedAfterFailure(d, name, hash, o.metaWrite) == Some(d[name].key);
            Holds(after, name, Bytes(d[name].data, named), hash)
  {
    hide SaveMeta, Encode, StoredMeta, Marked;
    MetaInjective(name, name);
    SavingEffect(d, name, d[name].key, m, hash, o);
    var after := SaveMeta(d, name, d[name].key, m, hash, o).1;
    assert SameAt(d, after, name);
  }

  /** What an opened writer, or one that threw after it had changed the disk, leaves before anything is written. */
  ghost predicate Opened(d: Disk, r: (Option<Key>, Disk), name: string, policy: Word, hash: Hash, o: Outside,
                         start: seq<Byte>)
  {
    if r.0.Some? then Holds(r.1, name, Bytes(start, true), hash)
    else
      r.1 != d ==>
        && Fresh(policy, o).Some?
        && var key := WriterKey(policy, Fresh(policy, o).value);
           Holds(r.1, name, Bytes(start, NamedAfterFailure(d, name, hash, o.metaWrite) == Some(key)), hash)
  }

  lemma CreatedHolds(d: Disk, name: string, policy: Word, hash: Hash, o: Outside)
    requires MetaMarked(d, name, hash)
    ensures Opened(d, OpenForWrite(d, name, policy, hash, o), name, policy, hash, o, [])
  {
    hide SaveMeta, NewMetaData, StoredMeta, Marked;
    if Fresh(policy, o).Some? && o.opens && name != "" {
      var m := Fresh(policy, o).value;
      var key := WriterKey(policy, m);
      FreshIsMarked(policy, o);
      SealingKeepsMeta(d, name, key, [], hash);
      SavingHolds(d[name := Sealed(key, [])], name, m, hash, o);
      assert OpenForWrite(d, name, policy, hash, o) == SaveMeta(d[name := Sealed(key, [])], name, key, m, hash, o);
    }
  }

  /** What `Append` starts from. */
  lemma AppendedHolds(d: Disk, name: string, policy: Word, hash: Hash, o: Outside, before: Held)
    requires Holds(d, name, before, hash)
    ensures Opened(d, OpenForAppend(d, name, policy, hash, o), name, policy, hash, o, Start(before, Append))
  {
    hide SaveMeta, NewMetaData, StoredMeta;
    LoadIsStored(d, name, hash, o.metaRead);
    var (file, after) := OpenForAppend(d, name, policy, hash, o);
    if Exists(d, Meta(name), o) == Some(true) {
      if file.Some? && name !in d {
        SealingKeepsMeta(d, name, file.value, [], hash);
      }
    } else if Exists(d, Meta(name), o) == Some(false) && Fresh(policy, o).Some? {
      var m := Fresh(policy, o).value;
      FreshIsMarked(policy, o);
      var (handle, created) := OpenKnown(d, name, policy, m, o);
      if handle.Some? {
        SealingKeepsMeta(d, name, handle.value, [], hash);
        SavingHolds(created, name, m, hash, o);
      }
    }
  }

  lemma WritingHolds(d: Disk, name: string, start: seq<Byte>, writes: seq<WriteCall>, hash: Hash)
    requires Holds(d, name, Bytes(start, true), hash)
    ensures Holds(d[name := Sealed(d[name].key, WriteAll(start, writes).0)], name, Bytes(start + Taken(writes), true),
                  hash)
  {
    WriteAllTakes(start, writes);
    SealingKeepsMeta(d, name, d[name].key, WriteAll(start, writes).0, hash);
  }

  lemma SessionHolds(d: Disk, s: Op, hash: Hash, before: Held)
    requires s.Session? && Holds(d, s.name, before, hash)
    ensures Holds(Apply(d, s, hash).1, s.name, Content(d, before, s, s.name, hash), hash)
  {
    hide OpenForWrite, OpenForAppend, WriteAll, Taken, StoredMeta, Marked, NamedAfterFailure, Fresh;
    CreatedHolds(d, s.name, s.policy, hash, s.o);
    AppendedHolds(d, s.name, s.policy, hash, s.o, before);
    var (file, after) := OpenWriter(d, s.name, s.mode, s.policy, hash, s.o);
    if file.Some? {
      WritingHolds(after, s.name, Start(before, s.mode), s.writes, hash);
    }
  }

  lemma RemovalHolds(d: Disk, path: string, name: string, hash: Hash, before: Held)
    requires Holds(d, name, before, hash)
    ensures Holds(d - {name}, name, Absent, hash)
    ensures path != name && path != Meta(name) ==> Holds(d - {path}, name, before, hash)
    ensures before.Absent? ==> Holds(d - {Meta(name)}, name, Absent, hash)
  {
    MetaInjective(name, name);
  }

  lemma SameHolds(d: Disk, after: Disk, name: string, hash: Hash, content: Held)
    requires Holds(d, name, content, hash) && SameAt(d, after, name) && SameAt(d, after, Meta(name))
    ensures Holds(after, name, content, hash)
  {
  }

  lemma StepHolds(d: Disk, op: Op, hash: Hash, name: string, before: Held)
    requires Holds(d, name, before, hash) && Separate(op, name)
    ensures Holds(Apply(d, op, hash).1, name, Content(d, before, op, name, hash), hash)
  {
    hide Holds, OpenWriter, SameAt;
    if op.Session? && op.name == name {
      SessionHolds(d, op, hash, before);
    } else if !op.RemovePath? && op.name != name {
      MetaInjective(op.name, name);
      ApplyFrame(d, op, hash, name);
      ApplyFrame(d, op, hash, Meta(name));
      SameHolds(d, Apply(d, op, hash).1, name, hash, before);
    } else if op.RemovePath? {
      RemovalHolds(d, op.path, name, hash, before);
      if op.path == name && name !in d {
        NotThere(d, name, hash, before);
      }
    } else {
      RemovalHolds(d, name, name, hash, before);
      if name !in d {
        NotThere(d, name, hash, before);
      }
      RemovalHolds(d - {name}, name, name, hash, Absent);
    }
  }

  lemma NotThere(d: Disk, name: string, hash: Hash, before: Held)
    requires Holds(d, name, before, hash) && name !in d
    ensures Holds(d, name, Absent, hash)
  {
  }

  lemma {:induction false} RunHolds(d: Disk, ops: seq<Op>, hash: Hash, name: string, before: Held)
    requires Holds(d, name, before, hash)
    requires forall op :: op in ops ==> Separate(op, name)
    ensures Holds(End(d, ops, hash), name, Contents(d, before, ops, name, hash), hash)
    decreases |ops|
  {
    hide Holds, Separate, Content, Apply;
    if ops != [] {
      StepHolds(d, ops[0], hash, name, before);
      RunHolds(Apply(d, ops[0], hash).1, ops[1..], hash, name, Content(d, before, ops[0], name, hash));
    }
  }

  /** Nothing fails while a reader is opened under the key it is told to use. */
  ghost predicate Undisturbed(d: Disk, name: string, key: Key, hash: Hash, o: Outside) {
    && o.opens && name != ""
    && (if Meta(name) in d then LoadOutcome(d, Meta(name), hash, o.metaRead).Some? else o.stats(Meta(name)))
    && (key.SealKey? ==> o.derives(key.request))
  }

  lemma ReaderIsTold(d: Disk, name: string, hash: Hash, o: Outside)
    requires name in d && d[name].Sealed? && MetaMarked(d, name, hash)
    ensures OpenReader(d, name, hash, o) ==
            if NamedKey(d, name, hash) == Some(d[name].key) && Undisturbed(d, name, d[name].key, hash, o)
            then Some(d[name].key) else None
  {
    hide Marked, Decode, ReadOutcome;
    LoadIsStored(d, name, hash, o.metaRead);
  }

  /** After any run, whatever throws in it, a file is there exactly when it should be, and holds all bytes written
      since a writer last opened it anew. The reader opens it exactly when it is told its key and nothing fails
      outside. */
  lemma ReadBack(ops: seq<Op>, name: string, hash: Hash, o: Outside)
    requires forall op :: op in ops ==> Separate(op, name)
    ensures var d, content := End(map[], ops, hash), Contents(map[], Absent, ops, name, hash);
            match content
            case Absent => name !in d && OpenReader(d, name, hash, o) == None
            case Bytes(bytes, named) =>
              && name in d && d[name].Sealed? && d[name].data == bytes
              && OpenReader(d, name, hash, o) ==
                   if named && Undisturbed(d, name, d[name].key, hash, o) then Some(d[name].key) else None
  {
    RunHolds(map[], ops, hash, name, Absent);
    var d, content := End(map[], ops, hash), Contents(map[], Absent, ops, name, hash);
    hide End, Contents, OpenReader, NamedKey, MetaMarked;
    if content.Bytes? {
      ReaderIsTold(d, name, hash, o);
    } else {
      NothingToRead(d, name, hash, o);
    }
  }

  lemma NothingToRead(d: Disk, name: string, hash: Hash, o: Outside)
    requires name !in d
    ensures OpenReader(d, name, hash, o) == None
  {
  }

  /** When all steps return normally, the reader is always told the key. */
  lemma {:induction false} NormalIsNamed(d: Disk, before: Held, ops: seq<Op>, name: string, hash: Hash)
    requires AllNormal(d, ops, hash) && (before.Bytes? ==> before.named)
    ensures var content := Contents(d, before, ops, name, hash); content.Bytes? ==> content.named
    decreases |ops|
  {
    hide OpenWriter;
    if ops != [] {
      NormalIsNamed(Apply(d, ops[0], hash).1, Content(d, before, ops[0], name, hash), ops[1..], name, hash);
    }
  }

  /** What a writer leaves that throws after it has changed the disk: the file under its new key, emptied unless it was
      appended to; and of the side file what it was, or nothing, or fewer bytes than one has. */
  lemma HalfOpened(d: Disk, s: Op, hash: Hash)
    requires s.Session?
    requires OpenWriter(d, s.name, s.mode, s.policy, hash, s.o).0.None?
    requires OpenWriter(d, s.name, s.mode, s.policy, hash, s.o).1 != d
    ensures Fresh(s.policy, s.o).Some?
    ensures var after, f := OpenWriter(d, s.name, s.mode, s.policy, hash, s.o).1, s.o.metaWrite;
            && s.name in after && after[s.name].Sealed?
            && after[s.name].key == WriterKey(s.policy, Fresh(s.policy, s.o).value)
            && (if s.mode == Append && s.name in d then after[s.name] == d[s.name] else after[s.name].data == [])
            && (!f.opens ==> SameAt(d, after, Meta(s.name)))
            && (f.opens && f.locks && f.removes ==> Meta(s.name) !in after)
            && (f.opens && !(f.locks && f.removes) ==>
                  Meta(s.name) in after && after[Meta(s.name)].Plain? && |after[Meta(s.name)].bytes| < META_SIZE)
  {
    hide SaveMeta, NewMetaData, LoadOutcome;
    MetaInjective(s.name, s.name);
    if Fresh(s.policy, s.o).Some? {
      var m := Fresh(s.policy, s.o).value;
      var key := WriterKey(s.policy, m);
      FailedSave(d, s.name, key, m, hash, s.o);
      FailedSave(d[s.name := Sealed(key, [])], s.name, key, m, hash, s.o);
    }
  }

  lemma FailedSave(d: Disk, name: string, key: Key, m: FileMetaData, hash: Hash, o: Outside)
    ensures var (file, after) := SaveMeta(d, name, key, m, hash, o);
            var f := o.metaWrite;
            file.None? ==>
            && SameAt(d, after, name)
            && (!f.opens ==> after == d)
            && (f.opens && f.locks && f.removes ==> after == d - {Meta(name)})
            && (f.opens && !(f.locks && f.removes) ==>
                  Meta(name) in after && after[Meta(name)].Plain? && |after[Meta(name)].bytes| < META_SIZE)
  {
    MetaInjective(name, name);
  }

  /** Reading to the end, in pieces of any sizes. */
  method ReadToEnd(reader: ProtectedFileReader, sizes: nat -> nat) returns (all: seq<Byte>)
    requires reader.Valid() && reader.file.Some? && reader.position == 0
    requires forall i :: sizes(i) > 0
    modifies reader`position
    ensures all == reader.host.files[reader.fileName].data
  {
    all := [];
    ghost var data := reader.host.files[reader.fileName].data;
    var i := 0;
    var piece := reader.Read(sizes(i), None);
    while piece != Some([])
      invariant reader.Valid() && piece.Some? && reader.position <= |data|
      invariant all + piece.value == data[..reader.position]
      invariant piece == Some([]) ==> reader.position == |data|
      decreases |data| - |all|
    {
      all := all + piece.value;
      i := i + 1;
      piece := reader.Read(sizes(i), None);
    }
    assert all + [] == all;
  }

  /** What is read is what was written: the reader opened after any run, and read to the end in pieces of any sizes,
      yields all bytes written since a writer last opened the file anew. */
  method ReadWritten(host: Host, ghost ops: seq<Op>, name: string, hash: Hash, o: Outside, sizes: nat -> nat)
    returns (all: Option<seq<Byte>>)
    requires host.files == End(map[], ops, hash)
    requires forall op :: op in ops ==> Separate(op, name)
    requires forall i :: sizes(i) > 0
    ensures match Contents(map[], Absent, ops, name, hash)
            case Absent => all == None
            case Bytes(bytes, named) =>
              && name in host.files && host.files[name].Sealed?
              && all == if named && Undisturbed(host.files, name, host.files[name].key, hash, o) then Some(bytes)
                        else None
  {
    ReadBack(ops, name, hash, o);
    hide End, Contents, OpenReader;
    var reader := new ProtectedFileReader(host, name);
    var ok := reader.Open(hash, o);
    if !ok {
      return None;
    }
    var bytes := ReadToEnd(reader, sizes);
    all := Some(bytes);
  }

  /** A session that opens a file anew and in which all goes well leaves in it exactly what was written, one write after
      the other, whatever happened before; one that appends adds exactly that. */
  lemma LastSession(ops: seq<Op>, s: Op, hash: Hash)
    requires s.Session? && Apply(End(map[], ops, hash), s, hash).0
    ensures var d, after := End(map[], ops, hash), End(map[], ops + [s], hash);
            && s.name in after && after[s.name].Sealed?
            && after[s.name].data == (if s.mode == Append && s.name in d && d[s.name].Sealed? then d[s.name].data
                                      else []) + Concatenated(s.writes)
  {
    EndSnoc(map[], ops, s, hash);
    hide End;
    RunSessionEnd(End(map[], ops, hash), s, hash);
  }

  lemma {:induction false} EndSnoc(d: Disk, ops: seq<Op>, op: Op, hash: Hash)
    ensures End(d, ops + [op], hash) == Apply(End(d, ops, hash), op, hash).1
    decreases |ops|
  {
    hide Apply;
    var all := ops + [op];
    if ops == [] {
      assert all == [op] && all[1..] == [];
    } else {
      assert all[0] == ops[0] && all[1..] == ops[1..] + [op];
      EndSnoc(Apply(d, ops[0], hash).1, ops[1..], op, hash);
    }
  }

  /** One session in which all goes well. */
  lemma RunSessionEnd(d: Disk, s: Op, hash: Hash)
    requires s.Session? && Apply(d, s, hash).0
    ensures var after := Apply(d, s, hash).1;
            && s.name in after && after[s.name].Sealed?
            && after[s.name].data == (if s.mode == Append && s.name in d && d[s.name].Sealed? then d[s.name].data
                                      else []) + Concatenated(s.writes)
  {
    hide WriteAll, Taken, OpenWriter;
    var (file, started) := OpenWriter(d, s.name, s.mode, s.policy, hash, s.o);
    StartsFrom(d, s.name, s.mode, s.policy, hash, s.o);
    WriteAllTakes(started[s.name].data, s.writes);
    AllOrPrefix(started[s.name].data, s.writes);
    assert Taken(s.writes) == Concatenated(s.writes) by {
      WholeIsTaken(s.writes);
    }
  }

  lemma WholeIsTaken(writes: seq<WriteCall>)
    requires AllTaken(writes)
    ensures Taken(writes) == Concatenated(writes)
  {
    AllOrPrefix([], writes);
  }

  lemma StartsFrom(d: Disk, name: string, mode: FileMode, policy: Word, hash: Hash, o: Outside)
    ensures var (file, after) := OpenWriter(d, name, mode, policy, hash, o);
            file.Some? ==>
              && name in after && after[name].Sealed?
              && after[name].data == if mode == Append && name in d && d[name].Sealed? then d[name].data else []
  {
    hide SaveMeta, NewMetaData, LoadOutcome;
    if Fresh(policy, o).Some? {
      var m := Fresh(policy, o).value;
      var key := WriterKey(policy, m);
      SavingFrame(d, name, key, m, hash, o, name);
      SavingFrame(d[name := Sealed(key, [])], name, key, m, hash, o, name);
      MetaInjective(name, name);
    }
  }

  /** A `CreateNew` that succeeds found neither the file nor its side file; one that finds either changes nothing. */
  lemma CreateNewDiscardsNothing(d: Disk, name: string, policy: Word, hash: Hash, o: Outside)
    ensures var (file, after) := OpenWriter(d, name, CreateNew, policy, hash, o);
            && (file.Some? ==> name !in d && Meta(name) !in d)
            && (name in d || Meta(name) in d ==> file == None && after == d)
  {
  }

  /** Appending to a file that has metadata, when nothing outside fails: it opens for the same policy and the same
      security versions, as far as they are compared, and otherwise throws; in no case does it change the disk. */
  lemma AppendToExisting(d: Disk, name: string, policy: Word, hash: Hash, o: Outside)
    requires AgreeOn(d, name, hash) && StoredMeta(d, name, hash).Some?
    requires name != "" && name in d && d[name].Sealed?
    requires o.report.Some? && o.stats(Meta(name)) && o.opens && LoadOutcome(d, Meta(name), hash, o.metaRead).Some?
    requires d[name].key.SealKey? ==> o.derives(d[name].key.request)
    ensures var (file, after) := OpenWriter(d, name, Append, policy, hash, o);
            var m := StoredMeta(d, name, hash).value;
            && after == d
            && (file.Some? <==>
                  && IsValidKeyPolicy(policy) && policy == m.keyPolicy && o.report.value.isvSvn == m.isvSvn
                  && o.report.value.cpuSvn[0] == m.cpuSvn[0] && o.report.value.cpuSvn[1] == m.cpuSvn[1])
  {
    LoadIsStored(d, name, hash, o.metaRead);
    var a, b := StoredMeta(d, name, hash).value.cpuSvn, o.report.value.cpuSvn;
    assert a[..2] == [a[0], a[1]] && b[..2] == [b[0], b[1]];
  }

  /** The answer of `RemoveProtectedFile`: `true` when both files were there and are gone. When nothing fails outside,
      `false` means what it is documented to mean, that the file did not exist, if and only if the file has a side
      file in case it is there; a file without one is removed and the answer is `false`. */
  lemma RemoveProtectedFileAnswers(d: Disk, name: string, o: Outside)
    ensures var (r, after) := RemoveProtectedFile(d, name, o);
            && (r == Some(true) ==> name in d && Meta(name) in d && after == d - {name, Meta(name)})
            && (r == Some(false) ==> (name in d ==> Meta(name) !in d) && after == d - {name})
            && (name !in d ==> after == d && r != Some(true))
            && (name != "" && o.stats(name) && o.stats(Meta(name)) && o.removes(name) && o.removes(Meta(name)) ==>
                  && (r == Some(true) <==> name in d && Meta(name) in d)
                  && (r == Some(false) <==> !(name in d && Meta(name) in d))
                  && ((r == Some(false) <==> name !in d) <==> (name in d ==> Meta(name) in d)))
  {
    MetaInjective(name, name);
  }

  /** A file without a side file, made for example by another application: it is removed, and the answer is `false`. */
  lemma RemovedButFalse()
    ensures RemoveProtectedFile(map["f" := Sealed(AutoKey, [])], "f", Calm(true)) == (Some(false), map[])
  {
    MetaInjective("f", "f");
    assert map["f" := Sealed(AutoKey, [])] - {"f"} == map[];
  }

  const ZERO_CPU: Bytes16 := [0, 0, 0, 0, 0, 0, 0, 0, 0, 0, 0, 0, 0, 0, 0, 0]
  const OTHER_CPU: Bytes16 := [0, 0, 7, 0, 0, 0, 0, 0, 0, 0, 0, 0, 0, 0, 0, 0]

  /** Nothing fails outside, except that the side file may not be opened for writing. */
  function Calm(metaOpens: bool, cpuSvn: Bytes16 := ZERO_CPU): Outside {
    Outside(Some(Report(1, cpuSvn)), Some(ZERO_KEY_ID),
            (_: KeyRequest) => true, true, (_: string) => true, (_: string) => true,
            WriteFaults(metaOpens, true, i => if i == 0 then 94 else 0, true),
            ReadFaults(true, true, true, i => if i == 0 then 94 else 0))
  }

  /** A file made at one CPU security version is opened for appending at another that differs in the third byte. */
  lemma OtherCpuMayAppend(hash: Hash)
    ensures ZERO_CPU != OTHER_CPU
    ensures var (file, made) := OpenWriter(map[], "f", CreateNew, SGX_KEYPOLICY_MRENCLAVE, hash, Calm(true));
            && file.Some? && file.value.SealKey? && file.value.request.cpuSvn == ZERO_CPU
            && OpenWriter(made, "f", Append, SGX_KEYPOLICY_MRENCLAVE, hash, Calm(true, OTHER_CPU)) == (file, made)
  {
    hide Decode;
    assert ZERO_CPU[2] != OTHER_CPU[2];
    assert ZERO_CPU[..2] == [0, 0] == OTHER_CPU[..2];
    var o := Calm(true, OTHER_CPU);
    MetaInjective("f", "f");
    var m := Fresh(SGX_KEYPOLICY_MRENCLAVE, Calm(true)).value;
    var sealed := map["f" := Sealed(WriterKey(SGX_KEYPOLICY_MRENCLAVE, m), [])];
    var made := OpenWriter(map[], "f", CreateNew, SGX_KEYPOLICY_MRENCLAVE, hash, Calm(true)).1;
    assert Through(94, 0, Calm(true).metaWrite.accepts) == 94 == Through(94, 0, o.metaRead.supplies);
    assert made == sealed[Meta("f") := Plain(Encode(m, hash))];
    SaveThenLoad(sealed, Meta("f"), m, hash, Calm(true).metaWrite, o.metaRead);
  }

  // ----- A run in which one step throws

  /** A file made for the signer is opened anew for the enclave alone and its side file cannot be opened: the old
      content is gone, and the reader, told to use the automatic key, opens nothing. */
  lemma StaleExample(hash: Hash) returns (ops: seq<Op>)
    ensures |ops| == 2 && AllNormal(map[], ops[..1], hash)
    ensures var before := End(map[], ops[..1], hash);
            && Agree(before, hash) && Stale(before, ops[1], hash)
            && !Agree(Apply(before, ops[1], hash).1, hash)
            && OpenReader(before, "f", hash, Calm(true)) == Some(AutoKey)
            && OpenReader(Apply(before, ops[1], hash).1, "f", hash, Calm(true)) == None
  {
    var first := Session("f", CreateNew, SGX_KEYPOLICY_MRSIGNER, [], Calm(true));
    var second := Session("f", OpenOrCreate, SGX_KEYPOLICY_MRENCLAVE, [], Calm(false));
    ops := [first, second];
    EmptyDiskAgrees(hash);
    AgreementStep(map[], first, hash);
    var before := Apply(map[], first, hash).1;
    FirstSession(hash);
    assert ops[..1] == [first] && ops[..1][1..] == [];
    assert End(map[], ops[..1], hash) == before;
    hide Apply, Agree;
    AgreementStep(before, second, hash);
    StaleIsUnreadable(before, second, hash, Calm(true));
  }

  /** What the first of the two sessions leaves. */
  lemma FirstSession(hash: Hash)
    ensures var (normal, d) := Apply(map[], Session("f", CreateNew, SGX_KEYPOLICY_MRSIGNER, [], Calm(true)), hash);
            var m := Fresh(SGX_KEYPOLICY_MRSIGNER, Calm(true)).value;
            && normal && "f" in d && d["f"] == Sealed(AutoKey, [])
            && StoredMeta(d, "f", hash) == Some(m) && OpenReader(d, "f", hash, Calm(true)) == Some(AutoKey)
  {
    var m := Fresh(SGX_KEYPOLICY_MRSIGNER, Calm(true)).value;
    var d := map["f" := Sealed(AutoKey, [])];
    MetaInjective("f", "f");
    assert Through(94, 0, Calm(true).metaWrite.accepts) == 94 == Through(94, 0, Calm(true).metaRead.supplies);
    SaveThenLoad(d, Meta("f"), m, hash, Calm(true).metaWrite, Calm(true).metaRead);
    DecodeOfEncode(m, hash);
    assert Apply(map[], Session("f", CreateNew, SGX_KEYPOLICY_MRSIGNER, [], Calm(true)), hash).1 ==
           d[Meta("f") := Plain(Encode(m, hash))];
  }
}
