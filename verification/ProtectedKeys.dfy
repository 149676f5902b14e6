/** Which key a protected file is sealed under, field by field, and when a writer opens at all. */
module ProtectedKeys {
  import opened HostFiles
  import opened MetaData
  import opened ProtectedFile
  import opened ProtectedRuns

  /** A writer that is to make up new metadata: no side file is there, or it does not matter. */
  predicate MakesMetaData(d: Disk, name: string, mode: FileMode) {
    mode == CreateNew || mode == OpenOrCreate || (mode == Append && name + ".pfsmeta" !in d)
  }

  /** The key that belongs to what is drawn and reported: the automatic key for the signer, and otherwise the one for
      the policy, the drawn key id, and the reported versions of CPU and enclave. */
  predicate IsKeyOf(key: Key, policy: Word, keyId: Bytes32, report: Report) {
    if policy == 2 then key == AutoKey
    else
      && key.SealKey?
      && key.request.keyPolicy == policy && key.request.keyId == keyId
      && key.request.cpuSvn == report.cpuSvn && key.request.isvSvn == report.isvSvn
  }

  function KeyIdOf(policy: Word, o: Outside): Bytes32
    requires policy == 2 || o.random.Some?
  {
    if policy == 2 then seq(32, _ => 0) else o.random.value
  }

  // ----- When a writer opens

  /** Nothing fails while the 94 bytes of a side file are written. */
  predicate SavesMeta(f: WriteFaults) { f.opens && f.locks && f.accepts(0) >= 94 }

  lemma SavesExactly(d: Disk, name: string, key: Key, m: FileMetaData, hash: Hash, o: Outside)
    ensures SaveMeta(d, name, key, m, hash, o).0 == if SavesMeta(o.metaWrite) then Some(key) else None
    ensures SavesMeta(o.metaWrite) ==> SaveMeta(d, name, key, m, hash, o).1 == d[Meta(name) := Plain(Encode(m, hash))]
  {
    Layout(m, hash);
    MetaInjective(name, name);
    hide Encode;
    WriteThenRead(d, Meta(name), Encode(m, hash), o.metaWrite, o.metaRead);
  }

  /** What the outside must grant a writer that makes up new metadata. */
  ghost predicate Granted(d: Disk, name: string, mode: FileMode, policy: Word, o: Outside) {
    && policy < 64 && policy % 4 != 0 && name != "" && o.report.Some?
    && (policy != 2 ==>
          && o.random.Some?
          && o.derives(KeyRequest(policy, o.random.value, o.report.value.cpuSvn, o.report.value.isvSvn)))
    && (mode == CreateNew ==>
          && o.stats(name) && name !in d
          && o.stats(name + ".pfsmeta") && name + ".pfsmeta" !in d)
    && (mode == Append ==>
          && o.stats(name + ".pfsmeta")
          && (name in d ==>
                d[name].Sealed? && IsKeyOf(d[name].key, policy, KeyIdOf(policy, o), o.report.value)))
    && o.opens && SavesMeta(o.metaWrite)
  }

  /** A writer that makes up new metadata opens exactly when all is granted. The file is then sealed under the key of
      the policy, the drawn key id and the report; it is empty unless it was appended to; and its side file says so. */
  lemma NewKey(d: Disk, name: string, mode: FileMode, policy: Word, hash: Hash, o: Outside)
    requires MakesMetaData(d, name, mode)
    ensures var (file, after) := OpenWriter(d, name, mode, policy, hash, o);
            && (file.Some? <==> Granted(d, name, mode, policy, o))
            && (file.Some? ==>
                  var keyId := KeyIdOf(policy, o);
                  var m := FileMetaData(if policy == 2 then 1 else 0, policy, keyId, o.report.value.isvSvn,
                                        o.report.value.cpuSvn);
                  && IsKeyOf(file.value, policy, keyId, o.report.value)
                  && after == d[name := Sealed(file.value, if mode == Append && name in d then d[name].data else [])]
                               [name + ".pfsmeta" := Plain(Encode(m, hash))])
  {
    hide SaveMeta, Encode, LoadOutcome;
    MetaInjective(name, name);
    assert ZERO_KEY_ID == seq(32, _ => 0);
    if Fresh(policy, o).Some? {
      var m := Fresh(policy, o).value;
      var key := WriterKey(policy, m);
      SavesExactly(d, name, key, m, hash, o);
      SavesExactly(d[name := Sealed(key, [])], name, key, m, hash, o);
      assert name in d ==> d == d[name := d[name]];
    }
  }

  /** A policy with an unknown bit, or with neither of the two lowest bits, is refused in every mode. */
  lemma PolicyRefused(d: Disk, name: string, mode: FileMode, policy: Word, hash: Hash, o: Outside)
    requires policy >= 64 || (policy / 1 % 2 == 0 && policy / 2 % 2 == 0)
    ensures OpenWriter(d, name, mode, policy, hash, o) == (None, d)
  {
  }

  // ----- Files under different keys

  /** One opening of a file with new metadata. */
  datatype Creation = Creation(disk: Disk, mode: FileMode, policy: Word, o: Outside)

  ghost predicate Created(c: Creation, name: string, hash: Hash) {
    MakesMetaData(c.disk, name, c.mode) && OpenWriter(c.disk, name, c.mode, c.policy, hash, c.o).0.Some?
  }

  ghost function KeyOf(c: Creation, name: string, hash: Hash): Key
    requires Created(c, name, hash)
  {
    OpenWriter(c.disk, name, c.mode, c.policy, hash, c.o).0.value
  }

  /** Two files are under one key exactly when both are for the signer, or neither is and policy, drawn key id and
      both versions are the same. */
  lemma SameKeyExactly(c: Creation, name: string, e: Creation, other: string, hash: Hash)
    requires Created(c, name, hash) && Created(e, other, hash)
    ensures KeyOf(c, name, hash) == KeyOf(e, other, hash) <==>
            if c.policy == 2 || e.policy == 2 then c.policy == e.policy
            else
              && c.policy == e.policy && c.o.random == e.o.random
              && c.o.report.value.cpuSvn == e.o.report.value.cpuSvn
              && c.o.report.value.isvSvn == e.o.report.value.isvSvn
  {
    hide OpenWriter, Encode;
    NewKey(c.disk, name, c.mode, c.policy, hash, c.o);
    NewKey(e.disk, other, e.mode, e.policy, hash, e.o);
  }

  /** A reader that finds the side file of one opening beside the file of another opens it only if the two are under
      one key. */
  lemma OtherSideFile(d: Disk, name: string, c: Creation, e: Creation, hash: Hash, o: Outside)
    requires Created(c, name, hash) && Created(e, name, hash)
    requires name in d && d[name].Sealed? && d[name].key == KeyOf(c, name, hash)
    requires Meta(name) in d
    requires var written := OpenWriter(e.disk, name, e.mode, e.policy, hash, e.o).1;
             Meta(name) in written && d[Meta(name)] == written[Meta(name)]
    ensures KeyOf(c, name, hash) != KeyOf(e, name, hash) ==> OpenReader(d, name, hash, o) == None
  {
    hide OpenWriter, Encode;
    NewKey(c.disk, name, c.mode, c.policy, hash, c.o);
    NewKey(e.disk, name, e.mode, e.policy, hash, e.o);
    MetaInjective(name, name);
    var m := FileMetaData(if e.policy == 2 then 1 else 0, e.policy, KeyIdOf(e.policy, e.o),
                          e.o.report.value.isvSvn, e.o.report.value.cpuSvn);
    DecodeOfEncode(m, hash);
    LoadIsStored(d, name, hash, o.metaRead);
  }

  // ----- Keys from a side file

  /** The key that the bytes of a side file call for. */
  predicate IsKeyIn(key: Key, b: seq<Byte>)
    requires |b| >= 94
  {
    if b[9] == 1 then key == AutoKey
    else
      && key.SealKey?
      && key.request.keyPolicy % 256 == b[10] && key.request.keyPolicy / 256 == b[11]
      && key.request.keyId == b[12..44]
      && key.request.isvSvn % 256 == b[44] && key.request.isvSvn / 256 == b[45]
      && key.request.cpuSvn == b[46..62]
  }

  lemma StoredKey(d: Disk, name: string, hash: Hash)
    requires StoredMeta(d, name, hash).Some?
    ensures Meta(name) in d && |Raw(d[Meta(name)])| >= 94
    ensures IsKeyIn(ReaderKey(StoredMeta(d, name, hash).value), Raw(d[Meta(name)]))
  {
  }

  /** Whatever a reader opens, it opens under the automatic key if there is no side file, and otherwise under the key
      that the bytes of the side file call for. */
  lemma ReadersKey(d: Disk, name: string, hash: Hash, o: Outside)
    requires OpenReader(d, name, hash, o).Some?
    ensures var key := OpenReader(d, name, hash, o).value;
            if Meta(name) !in d then key == AutoKey
            else |Raw(d[Meta(name)])| >= 94 && IsKeyIn(key, Raw(d[Meta(name)]))
  {
    hide Decode;
    LoadIsStored(d, name, hash, o.metaRead);
    if StoredMeta(d, name, hash).Some? {
      StoredKey(d, name, hash);
    }
  }

  /** Appending beside a side file that marks legacy mode properly is under the key that its bytes call for. */
  lemma AppendersKey(d: Disk, name: string, policy: Word, hash: Hash, o: Outside)
    requires Meta(name) in d && MetaMarked(d, name, hash) && OpenWriter(d, name, Append, policy, hash, o).0.Some?
    ensures var key := OpenWriter(d, name, Append, policy, hash, o).0.value;
            |Raw(d[Meta(name)])| >= 94 && IsKeyIn(key, Raw(d[Meta(name)]))
  {
    hide Decode, Fresh, SaveMeta;
    LoadIsStored(d, name, hash, o.metaRead);
    if StoredMeta(d, name, hash).Some? {
      StoredKey(d, name, hash);
    }
  }

  /** A writer that appends beside a side file opens exactly when that can be read, agrees with policy, ISV version and
      the first two bytes of the CPU version, and for the signer marks legacy mode, and when the file, if it is there,
      is under the key that the side file calls for; nothing changes but that a missing file is made. */
  lemma AppendOpens(d: Disk, name: string, policy: Word, hash: Hash, o: Outside)
    requires Meta(name) in d
    ensures var (file, after) := OpenWriter(d, name, Append, policy, hash, o);
            && (file.Some? <==>
                  && policy < 64 && policy % 4 != 0 && name != "" && o.report.Some? && o.opens && o.stats(Meta(name))
                  && LoadOutcome(d, Meta(name), hash, o.metaRead).Some?
                  && var m := LoadOutcome(d, Meta(name), hash, o.metaRead).value;
                     var key := if policy == 2 then AutoKey
                                else SealKey(KeyRequest(policy, m.keyId, m.cpuSvn, m.isvSvn));
                     && m.keyPolicy == policy && (policy == 2 ==> m.legacyMode == 1)
                     && m.isvSvn == o.report.value.isvSvn
                     && m.cpuSvn[0] == o.report.value.cpuSvn[0] && m.cpuSvn[1] == o.report.value.cpuSvn[1]
                     && (key.SealKey? ==> o.derives(key.request))
                     && (name in d ==> d[name].Sealed? && d[name].key == key))
            && after == if file.Some? && name !in d then d[name := Sealed(file.value, [])] else d
  {
    hide LoadOutcome, Fresh, SaveMeta;
    MetaInjective(name, name);
    var stored := LoadOutcome(d, Meta(name), hash, o.metaRead);
    if stored.Some? && o.report.Some? {
      var a, b := stored.value.cpuSvn, o.report.value.cpuSvn;
      assert a[..2] == [a[0], a[1]] && b[..2] == [b[0], b[1]];
    }
  }

  // ----- Removing

  /** The answers of `Remove`, each exactly when it is given. */
  lemma RemoveAnswers(d: Disk, path: string, o: Outside)
    ensures var (r, after) := Remove(d, path, o);
            && (r == None <==> path == "" || !o.stats(path) || (path in d && !o.removes(path)))
            && (r == Some(true) <==> path != "" && o.stats(path) && path in d && o.removes(path))
            && (r == Some(false) <==> path != "" && o.stats(path) && path !in d)
            && after == if r == Some(true) then d - {path} else d
  {
  }

  /** And of `RemoveProtectedFile`: an exception leaves the side file, and the file too unless it is the side file that
      could not be removed. */
  lemma RemoveProtectedFileThrows(d: Disk, name: string, o: Outside)
    ensures var (r, after) := RemoveProtectedFile(d, name, o);
            var gone := name != "" && o.stats(name) && name in d && o.removes(name);
            var side := name + ".pfsmeta";
            && (r == None <==> name == "" || !o.stats(name) || (name in d && !o.removes(name))
                               || (gone && (!o.stats(side) || (side in d && !o.removes(side)))))
            && (r == None ==> after == if gone then d - {name} else d)
            && (r == Some(false) <==> name != "" && o.stats(name)
                                      && (name !in d || (gone && o.stats(side) && side !in d)))
  {
    MetaInjective(name, name);
  }
}
