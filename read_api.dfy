/**
 * The object `createApi` returns: the engine state, the `_read` pass that
 * fills the records map and updates the modification bookkeeping, and the
 * `attach` / `_api` dispatch on whether a directory handle is attached.
 */
module ReadApi {
  import opened Wrappers
  import opened Values
  import opened Naming
  import opened Ingestion

  /**
   * `window.showDirectoryPicker` when no handle is attached: absent from the
   * host, rejected (the user dismissed it), or resolved to the chosen directory.
   */
  datatype Picker = PickerUnsupported | PickerCancelled | PickerChosen

  /** What a call of the api resolves to: `null`, or the records of a read. */
  datatype Reply = NoDirectory | Loaded(records: Records)

  /** Why a call of the api rejects. */
  datatype CallError = Aborted | ReadFailed(cause: ReadError)

  function AsReply(r: Result<Records, ReadError>): Result<Reply, CallError>
  {
    match r
    case Ok(records) => Ok(Loaded(records))
    case Err(e) => Err(ReadFailed(e))
  }

  /** The `state` record of `createApi`, with the operations that update it. */
  class Engine {
    /** A directory handle is attached (`state.resourcesHandle` is set). */
    var hasHandle: bool
    var lastRead: int
    var lastModified: int
    var isModified: bool

    /** Between reads the last-read time has caught up with the newest timestamp seen. */
    ghost predicate Valid()
      reads this
    {
      lastRead == lastModified
    }

    constructor ()
      ensures Valid()
      ensures !hasHandle && lastRead == 0 && lastModified == 0 && !isModified
    {
      hasHandle := false;
      lastRead := 0;
      lastModified := 0;
      isModified := false;
    }

    /** `isActive`: true exactly when a directory handle is attached. */
    function IsActive(): (active: bool)
      reads this
      ensures active <==> hasHandle
    {
      hasHandle
    }

    /** `isModified`: whether the last completed read saw a newer file. */
    function IsModified(): (modified: bool)
      reads this
      ensures modified <==> isModified
    {
      isModified
    }

    /**
     * `_read`: one pass over the directory tree behind the attached handle.
     * The records are those of ReadRecords; `lastModified` becomes the
     * maximum of its old value and every visited file's timestamp;
     * `isModified` says whether that moved it.  A missing `src` rejects
     * before anything changes.
     */
    method Read(parseJson: string -> Option<Value>, root: Root) returns (r: Result<Records, ReadError>)
      requires Valid() && hasHandle
      modifies this
      ensures Valid() && hasHandle
      ensures r == ReadRecords(parseJson, root)
      ensures lastModified >= old(lastModified)
      ensures r.Ok? ==> lastModified == LatestStamp(old(lastModified), VisitedFiles(root))
      ensures r.Ok? ==> (isModified <==> exists f :: f in VisitedFiles(root) && f.lastModified > old(lastModified))
      ensures r.Err? ==> lastModified == old(lastModified) && isModified == old(isModified)
    {
      var records: Records := map[];
      if root.name == RootName {
        if root.src.None? {
          return Err(SrcNotFound);
        }
        records := ReadEntries(parseJson, root.src.value);
      }
      LatestStampIsMax(old(lastModified), VisitedFiles(root));
      LatestStampMoves(old(lastModified), VisitedFiles(root));
      isModified := lastRead != lastModified;
      lastRead := lastModified;
      r := Ok(records);
    }

    /**
     * The outer loop of `_read` over the entries of `src`: each entry gets a
     * fresh bucket, which a directory then fills.
     */
    method ReadEntries(parseJson: string -> Option<Value>, entries: seq<SrcEntry>) returns (records: Records)
      modifies `lastModified
      ensures records == Assemble(parseJson, entries)
      ensures lastModified == LatestStamp(old(lastModified), Visited(entries))
    {
      records := map[];
      var i := 0;
      while i < |entries|
        invariant 0 <= i <= |entries|
        invariant records == Assemble(parseJson, entries[..i])
        invariant lastModified == LatestStamp(old(lastModified), Visited(entries[..i]))
      {
        ReadEntryStep(parseJson, entries, i, old(lastModified), records, lastModified);
        var bucket: Bucket := map[];
        if entries[i].Dir? {
          bucket := ReadBucket(parseJson, entries[i].name, entries[i].children);
        }
        records := records[entries[i].name := bucket];
        i := i + 1;
      }
      assert entries[..i] == entries;
    }

    /**
     * The inner loop of `_read` over the entries of one bucket: each file
     * advances `lastModified` and writes its one key into the bucket;
     * nested directories are skipped.
     */
    method ReadBucket(parseJson: string -> Option<Value>, bucket: string, children: seq<BucketChild>)
      returns (filled: Bucket)
      modifies `lastModified
      ensures filled == FillBucket(parseJson, bucket, children)
      ensures lastModified == LatestStamp(old(lastModified), FilesIn(children))
    {
      filled := map[];
      var j := 0;
      while j < |children|
        invariant 0 <= j <= |children|
        invariant filled == FillBucket(parseJson, bucket, children[..j])
        invariant lastModified == LatestStamp(old(lastModified), FilesIn(children[..j]))
      {
        ReadBucketStep(parseJson, bucket, children, j, old(lastModified));
        if children[j].FileChild? {
          var f := children[j].file;
          lastModified := Max(lastModified, f.lastModified);
          var e := StoreFile(parseJson, bucket, f);
          filled := filled[e.key := e.record];
        }
        j := j + 1;
      }
      assert children[..j] == children;
    }

    /**
     * `attach`: ask the host for a directory.  Without a picker the call
     * resolves to `null`; a dismissed picker rejects; a chosen directory is
     * attached and read at once.
     */
    method Attach(parseJson: string -> Option<Value>, picker: Picker, root: Root) returns (r: Result<Reply, CallError>)
      requires Valid()
      modifies this
      ensures Valid()
      ensures picker == PickerUnsupported ==> r == Ok(NoDirectory) && unchanged(this)
      ensures picker == PickerCancelled ==> r == Err(Aborted) && unchanged(this)
      ensures picker == PickerChosen ==> hasHandle && r == AsReply(ReadRecords(parseJson, root))
      ensures lastModified >= old(lastModified)
      ensures picker == PickerChosen && r.Ok? ==>
        lastModified == LatestStamp(old(lastModified), VisitedFiles(root)) &&
        (isModified <==> exists f :: f in VisitedFiles(root) && f.lastModified > old(lastModified))
      ensures r.Err? ==> lastModified == old(lastModified) && isModified == old(isModified)
    {
      match picker
      case PickerUnsupported =>
        r := Ok(NoDirectory);
      case PickerCancelled =>
        r := Err(Aborted);
      case PickerChosen =>
        hasHandle := true;
        var records := Read(parseJson, root);
        r := AsReply(records);
    }

    /**
     * `_api`: read through the attached handle, or attach one first.  The
     * handle stays attached even when the read that follows rejects.
     */
    method Call(parseJson: string -> Option<Value>, picker: Picker, root: Root) returns (r: Result<Reply, CallError>)
      requires Valid()
      modifies this
      ensures Valid()
      ensures hasHandle <==> old(hasHandle) || picker == PickerChosen
      ensures !hasHandle ==>
        unchanged(this) && r == (if picker == PickerUnsupported then Ok(NoDirectory) else Err(Aborted))
      ensures hasHandle ==> r == AsReply(ReadRecords(parseJson, root))
      ensures lastModified >= old(lastModified)
      ensures hasHandle && r.Ok? ==>
        lastModified == LatestStamp(old(lastModified), VisitedFiles(root)) &&
        (isModified <==> exists f :: f in VisitedFiles(root) && f.lastModified > old(lastModified))
      ensures r.Err? ==> lastModified == old(lastModified) && isModified == old(isModified)
    {
      if hasHandle {
        var records := Read(parseJson, root);
        r := AsReply(records);
      } else {
        r := Attach(parseJson, picker, root);
      }
    }
  }

  /**
   * Reading the same tree twice gives the same records, and the second read
   * reports no modification.
   */
  method RereadIsUnmodified(engine: Engine, parseJson: string -> Option<Value>, root: Root)
    returns (first: Result<Records, ReadError>, second: Result<Records, ReadError>)
    requires engine.Valid() && engine.hasHandle
    modifies engine
    ensures first == second
    ensures first.Ok? ==> !engine.IsModified()
  {
    first := engine.Read(parseJson, root);
    ghost var seen := engine.lastModified;
    second := engine.Read(parseJson, root);
    if first.Ok? {
      LatestStampIsMax(seen, VisitedFiles(root));
      LatestStampIdempotent(seen, VisitedFiles(root));
      assert !exists f :: f in VisitedFiles(root) && f.lastModified > seen by {
        LatestStampIsMax(old(engine.lastModified), VisitedFiles(root));
      }
    }
  }
}
