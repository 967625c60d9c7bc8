/**
 * The directory-ingestion pass as specification functions: the input tree
 * that the host's directory handles expose, the record one file produces,
 * the folds over a bucket and over `src`, and the running maximum of the
 * files' modification times.
 */
module Ingestion {
  import opened Wrappers
  import opened Values
  import opened Naming

  /** The root directory must carry this name, or the read yields nothing. */
  const RootName := "resources"
  const JsonMime := "application/json"
  const ScriptMime := "text/javascript"

  /** What `getFile()` and `text()` give for one file. */
  datatype FileEntry = File(name: string, mimeType: string, text: string, lastModified: int)

  /** An entry of a bucket: a nested directory (no `getFile`) or a file. */
  datatype BucketChild = NestedDir(name: string) | FileChild(file: FileEntry)

  /** An entry of `src`: a bucket directory with its entries, or a non-directory (no `values`). */
  datatype SrcEntry = Dir(name: string, children: seq<BucketChild>) | NonDir(name: string)

  /** The root the handle points to, with its `src` directory if there is one. */
  datatype Root = Root(name: string, src: Option<seq<SrcEntry>>)

  /** `getDirectoryHandle("src")` rejects when `src` is missing. */
  datatype ReadError = SrcNotFound

  type Bucket = map<string, Value>
  type Records = map<string, Bucket>

  /** The key a file is stored under in its bucket, and the record stored there. */
  datatype Stored = Stored(key: string, record: Value)

  /** The wrapper `{ function: payload, id: name }` used in the js-files bucket. */
  function FunctionRecord(payload: Value, name: Value): (r: Value)
    ensures r.Object? && r.fields.Keys == {"function", "id"}
    ensures r.fields["function"] == payload && r.fields["id"] == name
    ensures IsFunctionRecordFor(PropertyKey(name), r)
  {
    Object(map["function" := payload, "id" := name])
  }

  /** v is a `{function, id}` record whose `id` names the key it is stored under. */
  predicate IsFunctionRecordFor(key: string, v: Value)
  {
    v.Object? && v.fields.Keys == {"function", "id"} && PropertyKey(v.fields["id"]) == key
  }

  /**
   * The `switch (file.type)` for one file of bucket `bucket`: how its payload
   * is obtained, which logical name it gets, and whether it is wrapped.
   * StoreFileSpec states what it yields.
   */
  function StoreFile(parseJson: string -> Option<Value>, bucket: string, f: FileEntry): Stored
  {
    var base := StripScriptSuffix(f.name);
    if f.mimeType == JsonMime then
      var parsed := ParseOrText(parseJson, f.text);
      var name := Resolve(bucket, base, parsed);
      Stored(PropertyKey(name), if bucket == JsBucket then FunctionRecord(parsed, name) else parsed)
    else if f.mimeType == ScriptMime then
      var name := Resolve(bucket, base, Str(f.text));
      Stored(PropertyKey(name), if bucket == JsBucket then FunctionRecord(Str(f.text), name) else Str(f.text))
    else
      var name := Resolve(bucket, base, Str(f.text));
      Stored(PropertyKey(name), Str(f.text))
  }

  /** The key and record StoreFile yields for each MIME type and bucket. */
  lemma StoreFileSpec(parseJson: string -> Option<Value>, bucket: string, f: FileEntry, e: Stored)
    requires e == StoreFile(parseJson, bucket, f)
    // the json-files bucket, every payload that is raw text, and every parsed payload
    // without a truthy id (a failed parse included) use the file's base name
    ensures bucket == JsonBucket || f.mimeType != JsonMime || !HasTruthyId(ParseOrText(parseJson, f.text))
      ==> e.key == StripScriptSuffix(f.name)
    // a parsed payload elsewhere is stored under its truthy id
    ensures bucket != JsonBucket && f.mimeType == JsonMime && HasTruthyId(ParseOrText(parseJson, f.text))
      ==> e.key == PropertyKey(ParseOrText(parseJson, f.text).fields["id"])
    // JSON and JavaScript files in js-files are wrapped, and the wrapper's id names its key
    ensures bucket == JsBucket && (f.mimeType == JsonMime || f.mimeType == ScriptMime)
      ==> IsFunctionRecordFor(e.key, e.record)
    ensures bucket == JsBucket && f.mimeType == JsonMime ==> e.record.fields["function"] == ParseOrText(parseJson, f.text)
    ensures bucket == JsBucket && f.mimeType == ScriptMime ==> e.record.fields["function"] == Str(f.text)
    // the wrapper's id is the payload's truthy id, or else the base name
    ensures bucket == JsBucket && f.mimeType == JsonMime ==>
      var parsed := ParseOrText(parseJson, f.text);
      e.record.fields["id"] == if HasTruthyId(parsed) then parsed.fields["id"] else Str(StripScriptSuffix(f.name))
    ensures bucket == JsBucket && f.mimeType == ScriptMime ==> e.record.fields["id"] == Str(StripScriptSuffix(f.name))
    // elsewhere the payload is stored as it is
    ensures bucket != JsBucket && f.mimeType == JsonMime ==> e.record == ParseOrText(parseJson, f.text)
    ensures bucket != JsBucket && f.mimeType == ScriptMime ==> e.record == Str(f.text)
    // any other type is raw text, not wrapped, even in js-files
    ensures f.mimeType != JsonMime && f.mimeType != ScriptMime ==> e.record == Str(f.text)
  {
  }

  /** The files of a bucket, in listing order (nested directories are skipped). */
  function FilesIn(children: seq<BucketChild>): (files: seq<FileEntry>)
    ensures |files| <= |children|
    ensures forall f :: f in files <==> FileChild(f) in children
    decreases |children|
  {
    if children == [] then []
    else
      var prefix := children[..|children| - 1];
      assert children == prefix + [children[|children| - 1]];
      match children[|children| - 1]
      case NestedDir(_) => FilesIn(prefix)
      case FileChild(f) => FilesIn(prefix) + [f]
  }

  /**
   * The bucket after the inner loop has visited `children` in order: each
   * file writes its one key, a later file overwrites an earlier one with
   * the same key, and nested directories add nothing.
   */
  function FillBucket(parseJson: string -> Option<Value>, bucket: string, children: seq<BucketChild>): (m: Bucket)
    ensures m == map[] <==> FilesIn(children) == []
    decreases |children|
  {
    if children == [] then map[]
    else
      var m := FillBucket(parseJson, bucket, children[..|children| - 1]);
      match children[|children| - 1]
      case NestedDir(_) => m
      case FileChild(f) =>
        var e := StoreFile(parseJson, bucket, f);
        assert e.key in m[e.key := e.record];
        m[e.key := e.record]
  }

  /** The keys of a bucket are exactly the keys its files are stored under. */
  lemma {:induction false} FillBucketKeys(parseJson: string -> Option<Value>, bucket: string, children: seq<BucketChild>)
    ensures forall k :: k in FillBucket(parseJson, bucket, children) <==>
      exists f :: f in FilesIn(children) && StoreFile(parseJson, bucket, f).key == k
    decreases |children|
  {
    if children != [] {
      var prefix := children[..|children| - 1];
      FillBucketKeys(parseJson, bucket, prefix);
      match children[|children| - 1]
      case NestedDir(_) =>
      case FileChild(g) =>
        assert FilesIn(children) == FilesIn(prefix) + [g];
    }
  }

  /** The record under a file's key is that file's record unless a later file claims the key. */
  lemma {:induction false} LastWriteWins(parseJson: string -> Option<Value>, bucket: string, children: seq<BucketChild>, i: nat)
    requires i < |children| && children[i].FileChild?
    requires forall j :: i < j < |children| && children[j].FileChild? ==>
      StoreFile(parseJson, bucket, children[j].file).key != StoreFile(parseJson, bucket, children[i].file).key
    ensures var e := StoreFile(parseJson, bucket, children[i].file);
      var m := FillBucket(parseJson, bucket, children);
      e.key in m && m[e.key] == e.record
    decreases |children|
  {
    if i < |children| - 1 {
      var prefix := children[..|children| - 1];
      assert prefix[i] == children[i];
      LastWriteWins(parseJson, bucket, prefix, i);
    }
  }

  /** In the json-files bucket the keys are exactly the files' base names. */
  lemma JsonBucketKeys(parseJson: string -> Option<Value>, children: seq<BucketChild>)
    ensures forall k :: k in FillBucket(parseJson, JsonBucket, children) <==>
      exists f :: f in FilesIn(children) && StripScriptSuffix(f.name) == k
  {
    FillBucketKeys(parseJson, JsonBucket, children);
    forall f | f in FilesIn(children)
      ensures StoreFile(parseJson, JsonBucket, f).key == StripScriptSuffix(f.name)
    {
      StoreFileSpec(parseJson, JsonBucket, f, StoreFile(parseJson, JsonBucket, f));
    }
  }

  /** Each record is a `{function, id}` wrapper for its own key, or raw text. */
  predicate JsBucketShape(m: Bucket)
  {
    forall k :: k in m ==> IsFunctionRecordFor(k, m[k]) || m[k].Str?
  }

  /**
   * Every record of the js-files bucket is a `{function, id}` wrapper whose
   * id names its own key, or a string.
   */
  lemma {:induction false} JsBucketRecords(parseJson: string -> Option<Value>, children: seq<BucketChild>)
    ensures JsBucketShape(FillBucket(parseJson, JsBucket, children))
    decreases |children|
  {
    if children != [] {
      JsBucketRecords(parseJson, children[..|children| - 1]);
      match children[|children| - 1]
      case NestedDir(_) =>
        assert FillBucket(parseJson, JsBucket, children) == FillBucket(parseJson, JsBucket, children[..|children| - 1]);
      case FileChild(f) =>
        var e := StoreFile(parseJson, JsBucket, f);
        StoreFileSpec(parseJson, JsBucket, f, e);
        var before := FillBucket(parseJson, JsBucket, children[..|children| - 1]);
        var after := before[e.key := e.record];
        assert FillBucket(parseJson, JsBucket, children) == after;
        forall k | k in after
          ensures IsFunctionRecordFor(k, after[k]) || after[k].Str?
        {
          if k == e.key {
            if f.mimeType == JsonMime || f.mimeType == ScriptMime {
              assert IsFunctionRecordFor(e.key, e.record);
            } else {
              assert e.record == Str(f.text);
            }
          } else {
            assert k in before && after[k] == before[k];
          }
        }
    }
  }

  /** The bucket an entry of `src` yields: empty for a non-directory. */
  function BucketOf(parseJson: string -> Option<Value>, entry: SrcEntry): Bucket
  {
    match entry
    case NonDir(_) => map[]
    case Dir(name, children) => FillBucket(parseJson, name, children)
  }

  /** The records after the outer loop has visited `entries` of `src` in order. */
  function Assemble(parseJson: string -> Option<Value>, entries: seq<SrcEntry>): (records: Records)
    ensures records == map[] <==> entries == []
    decreases |entries|
  {
    if entries == [] then map[]
    else
      var last := entries[|entries| - 1];
      var records := Assemble(parseJson, entries[..|entries| - 1])[last.name := BucketOf(parseJson, last)];
      assert last.name in records;
      records
  }

  /** There is one bucket per entry of `src`. */
  lemma {:induction false} AssembleKeys(parseJson: string -> Option<Value>, entries: seq<SrcEntry>)
    ensures forall b :: b in Assemble(parseJson, entries) <==> exists e :: e in entries && e.name == b
    decreases |entries|
  {
    if entries != [] {
      var prefix := entries[..|entries| - 1];
      AssembleKeys(parseJson, prefix);
      assert entries == prefix + [entries[|entries| - 1]];
    }
  }

  /** Entry names within one directory are unique. */
  predicate DistinctNames(entries: seq<SrcEntry>)
  {
    forall i, j :: 0 <= i < j < |entries| ==> entries[i].name != entries[j].name
  }

  /**
   * Each bucket holds what its own directory yields, so a non-directory
   * entry leaves its bucket empty.
   */
  lemma {:induction false} AssembleBucket(parseJson: string -> Option<Value>, entries: seq<SrcEntry>, k: nat)
    requires DistinctNames(entries) && k < |entries|
    ensures entries[k].name in Assemble(parseJson, entries)
    ensures Assemble(parseJson, entries)[entries[k].name] == BucketOf(parseJson, entries[k])
    ensures entries[k].NonDir? ==> Assemble(parseJson, entries)[entries[k].name] == map[]
    decreases |entries|
  {
    if k < |entries| - 1 {
      var prefix := entries[..|entries| - 1];
      assert prefix[k] == entries[k];
      assert entries[k].name != entries[|entries| - 1].name;
      AssembleBucket(parseJson, prefix, k);
    }
  }

  /** The files the outer and inner loops visit, in order. */
  function Visited(entries: seq<SrcEntry>): (files: seq<FileEntry>)
    decreases |entries|
  {
    if entries == [] then []
    else
      var prefix := entries[..|entries| - 1];
      match entries[|entries| - 1]
      case NonDir(_) => Visited(prefix)
      case Dir(_, children) => Visited(prefix) + FilesIn(children)
  }

  function Max(a: int, b: int): int
  {
    if a < b then b else a
  }

  /** `lastModified = Math.max(lastModified, file.lastModified)` applied to each file in turn. */
  function LatestStamp(start: int, files: seq<FileEntry>): (latest: int)
    ensures latest >= start
    decreases |files|
  {
    if files == [] then start
    else Max(LatestStamp(start, files[..|files| - 1]), files[|files| - 1].lastModified)
  }

  /**
   * The running maximum is the largest of the start value and all visited
   * timestamps: never below any of them, and equal to one of them.
   */
  lemma {:induction false} LatestStampIsMax(start: int, files: seq<FileEntry>)
    ensures LatestStamp(start, files) >= start
    ensures forall f :: f in files ==> LatestStamp(start, files) >= f.lastModified
    ensures LatestStamp(start, files) == start ||
      exists f :: f in files && LatestStamp(start, files) == f.lastModified
    decreases |files|
  {
    if files != [] {
      var prefix := files[..|files| - 1];
      LatestStampIsMax(start, prefix);
      assert files == prefix + [files[|files| - 1]];
    }
  }

  /** The maximum moves exactly when some visited file is newer than the start value. */
  lemma LatestStampMoves(start: int, files: seq<FileEntry>)
    ensures LatestStamp(start, files) != start <==> exists f :: f in files && f.lastModified > start
  {
    LatestStampIsMax(start, files);
  }

  /** Visiting the same files again does not move the maximum. */
  lemma LatestStampIdempotent(start: int, files: seq<FileEntry>)
    ensures LatestStamp(LatestStamp(start, files), files) == LatestStamp(start, files)
  {
    var m := LatestStamp(start, files);
    LatestStampIsMax(start, files);
    LatestStampMoves(m, files);
  }

  /** Folding two runs of files one after the other is folding their concatenation. */
  lemma {:induction false} LatestStampConcat(start: int, done: seq<FileEntry>, more: seq<FileEntry>)
    ensures LatestStamp(LatestStamp(start, done), more) == LatestStamp(start, done + more)
    decreases |more|
  {
    if more != [] {
      var prefix := more[..|more| - 1];
      LatestStampConcat(start, done, prefix);
      assert (done + more)[..|done + more| - 1] == done + prefix;
    } else {
      assert done + more == done;
    }
  }

  /** One more file extends the running maximum by one step. */
  lemma LatestStampSnoc(start: int, files: seq<FileEntry>, f: FileEntry)
    ensures LatestStamp(start, files + [f]) == Max(LatestStamp(start, files), f.lastModified)
  {
    assert (files + [f])[..|files|] == files;
  }

  /** The inner loop's step: child j of a bucket extends the bucket and the visited files. */
  lemma FillBucketStep(parseJson: string -> Option<Value>, bucket: string, children: seq<BucketChild>, j: nat)
    requires j < |children|
    ensures children[j].NestedDir? ==>
      FillBucket(parseJson, bucket, children[..j + 1]) == FillBucket(parseJson, bucket, children[..j]) &&
      FilesIn(children[..j + 1]) == FilesIn(children[..j])
    ensures children[j].FileChild? ==>
      var e := StoreFile(parseJson, bucket, children[j].file);
      FillBucket(parseJson, bucket, children[..j + 1]) == FillBucket(parseJson, bucket, children[..j])[e.key := e.record] &&
      FilesIn(children[..j + 1]) == FilesIn(children[..j]) + [children[j].file]
  {
    assert children[..j + 1][..j] == children[..j];
  }

  /**
   * The inner loop's invariant is kept by one step: a nested directory
   * changes nothing, and a file raises the maximum and writes its key.
   */
  lemma ReadBucketStep(parseJson: string -> Option<Value>, bucket: string, children: seq<BucketChild>, j: nat, start: int)
    requires j < |children|
    ensures children[j].NestedDir? ==>
      FillBucket(parseJson, bucket, children[..j + 1]) == FillBucket(parseJson, bucket, children[..j]) &&
      LatestStamp(start, FilesIn(children[..j + 1])) == LatestStamp(start, FilesIn(children[..j]))
    ensures children[j].FileChild? ==>
      var f := children[j].file;
      var e := StoreFile(parseJson, bucket, f);
      FillBucket(parseJson, bucket, children[..j + 1]) == FillBucket(parseJson, bucket, children[..j])[e.key := e.record] &&
      LatestStamp(start, FilesIn(children[..j + 1])) == Max(LatestStamp(start, FilesIn(children[..j])), f.lastModified)
  {
    FillBucketStep(parseJson, bucket, children, j);
    if children[j].FileChild? {
      LatestStampSnoc(start, FilesIn(children[..j]), children[j].file);
    }
  }

  /** The outer loop's step: entry i of `src` sets its bucket and extends the visited files. */
  lemma AssembleStep(parseJson: string -> Option<Value>, entries: seq<SrcEntry>, i: nat)
    requires i < |entries|
    ensures Assemble(parseJson, entries[..i + 1]) ==
      Assemble(parseJson, entries[..i])[entries[i].name := BucketOf(parseJson, entries[i])]
    ensures entries[i].NonDir? ==> Visited(entries[..i + 1]) == Visited(entries[..i])
    ensures entries[i].Dir? ==> Visited(entries[..i + 1]) == Visited(entries[..i]) + FilesIn(entries[i].children)
  {
    assert entries[..i + 1][..i] == entries[..i];
  }

  /**
   * The outer loop's invariant is kept by one step: entry i's bucket is
   * written under its name, and a directory moves the maximum over its files.
   */
  lemma ReadEntryStep(parseJson: string -> Option<Value>, entries: seq<SrcEntry>, i: nat, start: int,
                      records: Records, stamp: int)
    requires i < |entries|
    requires records == Assemble(parseJson, entries[..i])
    requires stamp == LatestStamp(start, Visited(entries[..i]))
    ensures records[entries[i].name := BucketOf(parseJson, entries[i])] == Assemble(parseJson, entries[..i + 1])
    ensures entries[i].NonDir? ==> stamp == LatestStamp(start, Visited(entries[..i + 1]))
    ensures entries[i].Dir? ==> LatestStamp(stamp, FilesIn(entries[i].children)) == LatestStamp(start, Visited(entries[..i + 1]))
  {
    AssembleStep(parseJson, entries, i);
    if entries[i].Dir? {
      LatestStampConcat(start, Visited(entries[..i]), FilesIn(entries[i].children));
    }
  }

  /**
   * The records `_read` returns: nothing for a root not named "resources",
   * the NotFound rejection when `src` is missing, and the assembled buckets otherwise.
   */
  function ReadRecords(parseJson: string -> Option<Value>, root: Root): (r: Result<Records, ReadError>)
    ensures r.Err? <==> root.name == RootName && root.src.None?
    ensures root.name != RootName ==> r == Ok(map[])
    ensures root.name == RootName && root.src.Some? ==>
      forall b :: b in r.value <==> exists e :: e in root.src.value && e.name == b
  {
    if root.name != RootName then Ok(map[])
    else
      match root.src
      case None => Err(SrcNotFound)
      case Some(entries) =>
        AssembleKeys(parseJson, entries);
        Ok(Assemble(parseJson, entries))
  }

  /** The files whose timestamps `_read` folds into `lastModified`. */
  function VisitedFiles(root: Root): seq<FileEntry>
  {
    if root.name != RootName then []
    else
      match root.src
      case None => []
      case Some(entries) => Visited(entries)
  }

  /** A root not named "resources" yields an empty map and visits no file. */
  lemma ForeignRootYieldsNothing(parseJson: string -> Option<Value>, root: Root)
    requires root.name != RootName
    ensures ReadRecords(parseJson, root) == Ok(map[])
    ensures VisitedFiles(root) == []
  {
  }

  /** A JSON file whose text does not parse is stored as that text, under its base name. */
  lemma ParseFallbackExample(parseJson: string -> Option<Value>)
    requires parseJson("not-json") == None
    ensures StoreFile(parseJson, "any-bucket", File("bad.json", JsonMime, "not-json", 0)) == Stored("bad", Str("not-json"))
  {
  }

  /** A script in js-files without an id is wrapped and named after its file. */
  lemma FunctionBucketExample(parseJson: string -> Option<Value>)
    ensures StoreFile(parseJson, JsBucket, File("f1.js", ScriptMime, "console.log(1)", 0))
      == Stored("f1", FunctionRecord(Str("console.log(1)"), Str("f1")))
  {
    StripAppendedSuffix("f1");
    assert "f1" + ".js" == "f1.js";
  }

  /** Outside json-files a parsed object's id, not the file name, is the key. */
  lemma IdOverrideExample(parseJson: string -> Option<Value>, text: string)
    requires parseJson(text) == Some(Object(map["id" := Str("custom")]))
    ensures StoreFile(parseJson, "data", File("rec.json", JsonMime, text, 0)).key == "custom"
    ensures StoreFile(parseJson, JsonBucket, File("rec.json", JsonMime, text, 0)).key == "rec"
  {
  }
}
