# Directory ingestion of react-file-system-access-api, modelled in Dafny

This project models the ingestion engine that `createApi` builds in
`index.js`. A user attaches a directory named `resources`. Each call then
walks `resources/src`. Every immediate entry of `src` is a *bucket*: a key
of the result, initialised to an empty map. Every file inside a bucket
directory becomes one record. The record's key is the file name with a
trailing `.json` or `.js` removed, or, outside `json-files`, the truthy
`id` of the parsed payload. The payload comes from the file's MIME type:
`application/json` text is parsed, and text that does not parse is kept
as it is. `text/javascript` and every other type keep the raw text. In
the `js-files` bucket, JSON and JavaScript payloads are wrapped as
`{function, id}`. While it walks, the engine keeps the largest file
timestamp in `lastModified`. After the walk it sets `isModified` and
catches `lastRead` up.

Files:

- `wrappers.dfy`: `Option` and `Result`.
- `values.dfy`: the JavaScript values involved (JSON values and raw text
  as strings), truthiness, and the conversion of a value to a property
  key when it is used as `obj[name]`.
- `naming.dfy`: suffix stripping, `parse` with its silent fallback, and
  `resolve`.
- `ingestion.dfy`: the input tree that replaces the asynchronous handles;
  the record one file yields (`StoreFile`); the folds over a bucket
  (`FillBucket`) and over `src` (`Assemble`); the running maximum of
  timestamps (`LatestStamp`); and the lemmas about all of them.
- `read_api.dfy`: module `ReadApi` with the `Engine` class. Its fields are
  `hasHandle`, `lastRead`, `lastModified` and `isModified`. Its methods
  are `Read` (`_read`), with its outer loop over `src` (`ReadEntries`)
  and its inner loop over one bucket (`ReadBucket`); `Attach`; `Call`
  (`_api`); `IsActive`; and `IsModified`.

Host inputs become parameters:

- `JSON.parse` is the parameter `parseJson: string -> Option<Value>`.
  `None` stands for a thrown exception.
- The directory tree behind the handle is a `Root` value. It has the
  root's name and, optionally, the entries of `src`. Each entry is a
  `Dir(name, children)` or a `NonDir(name)`. A child is a
  `NestedDir(name)` or a `FileChild(File(name, mimeType, text,
  lastModified))`.
- The outcome of `window.showDirectoryPicker` is a `Picker` value:
  unsupported, cancelled or chosen.

Two behaviours of the code that the model keeps as written:

- Cancelled picker: a dismissed directory picker is sometimes described
  as yielding `null`. In the code, `attach` awaits the picker without catching.
  So a dismissed picker rejects the call (`Err(Aborted)`), and the
  state is left unchanged.
- Failed read after attaching: `attach` stores the handle before it
  reads. If the read then rejects because `src` is missing, the handle
  stays attached.

## Model

| member | source | states |
|---|---|---|
| `Values.Truthy` | index.js:115 | A value is truthy exactly when it is not `null`, `false`, `0` or the empty string. |
| `Values.PropertyKey` | index.js:47 | The key `obj[name]` uses: a string unchanged, an integer in decimal notation, `null`, `true` and `false` by name, an object as "[object Object]", and an empty array as the empty string. |
| `Values.NumberKeysInjective` | index.js:47 | Two numeric ids give the same key exactly when they are equal. |
| `Naming.StripScriptSuffix` | index.js:37 | The base name is the name itself, or the name minus one trailing ".json" or ".js". It is unchanged exactly when the name ends in neither. |
| `Naming.StripRemovesRegexMatch` | index.js:37 | Stripping is what `replace(/\.js(on)?$/, "")` does: a match of the expression is cut off, and a name without a match is kept. |
| `Naming.StripAppendedSuffix` | index.js:37 | Appending ".json" or ".js" to a base name and stripping it gives the base name back. |
| `Naming.StripOnlyOnce` | index.js:37 | Only one suffix is removed: "a.json.js" becomes "a.json" and "a.js.js" becomes "a.js". |
| `Naming.StripKeepsOtherEndings` | index.js:37 | "view.jsx", "DATA.JSON" and "b.jso" are unchanged. |
| `Naming.ParseOrText` | index.js:101-107 | `parse` never fails. It returns the parsed value, or the text itself as a string when parsing throws. |
| `Naming.HasTruthyId` | index.js:114-115 | The payload is an object with an own `id` field whose value is truthy. |
| `Naming.Resolve` | index.js:109-119 | In json-files the name is the base name. Elsewhere it is the payload's truthy `id` when the payload is an object that has one, otherwise the base name. |
| `Naming.ResolveIsFileNameOrId` | index.js:109-119 | A resolved name is the base name or a truthy value found in the payload object. A string payload always resolves to the base name. |
| `Ingestion.FunctionRecord` | index.js:47-59 | The wrapper holds exactly the fields `function` and `id`, carrying the payload and the logical name. |
| `Ingestion.StoreFileSpec` | index.js:36-67 | The key and record that `Ingestion.StoreFile`, the `switch` on the file's type, gives one file, per bucket and MIME type. The key is the base name in json-files, for every raw-text payload, and for a parsed payload without a truthy id (a failed parse included). Elsewhere a parsed payload's truthy id is the key. In js-files, JSON and JavaScript files are wrapped as `{function, id}`: `function` is the payload, and `id` is the payload's truthy id or else the base name, naming the key. Elsewhere the payload is stored as it is. Files of any other type are stored as raw text, even in js-files. |
| `Ingestion.FilesIn` | index.js:31-34 | The files of a bucket are exactly its file children. Nested directories are skipped. |
| `Ingestion.FillBucket` | index.js:31-67 | A bucket is empty exactly when its directory holds no file. |
| `Ingestion.FillBucketKeys` | index.js:31-67 | A bucket's keys are exactly the keys its files are stored under. |
| `Ingestion.LastWriteWins` | index.js:47-65 | A file's record is found under its key unless a later file of the same bucket has the same key. |
| `Ingestion.JsonBucketKeys` | index.js:31-67 | The keys of the json-files bucket are exactly the base names of its files. |
| `Ingestion.JsBucketRecords` | index.js:47-66 | Every record in js-files is a `{function, id}` wrapper whose id names its own key, or a string. |
| `Ingestion.Assemble` | index.js:22-29 | The records are empty exactly when `src` has no entries. |
| `Ingestion.AssembleKeys` | index.js:22-25 | The result has one key per immediate entry of `src`. |
| `Ingestion.AssembleBucket` | index.js:22-29 | When entry names are distinct, each bucket holds exactly what its own directory yields (`Ingestion.BucketOf`). A non-directory entry leaves its bucket empty. |
| `Ingestion.LatestStamp` | index.js:40 | The running maximum is never below its start value. |
| `Ingestion.LatestStampIsMax` | index.js:40 | The running maximum is at least the start value and at least every visited timestamp, and it equals one of them. |
| `Ingestion.LatestStampMoves` | index.js:40 | The maximum changes exactly when some visited file is newer than the start value. |
| `Ingestion.LatestStampIdempotent` | index.js:40 | Folding the same files in again does not move the maximum. |
| `Ingestion.LatestStampConcat` | index.js:40 | Folding two runs of files one after the other is the same as folding their concatenation. |
| `Ingestion.ReadRecords` | index.js:16-75 | A read rejects exactly when the root is "resources" and `src` is missing. A root with another name yields no buckets. Otherwise there is exactly one bucket per entry of `src`. |
| `Ingestion.ForeignRootYieldsNothing` | index.js:19 | A root not named "resources" yields an empty map and visits no file. |
| `Ingestion.ParseFallbackExample` | index.js:43-51 | "bad.json" with unparsable text "not-json" is stored as that text under "bad". |
| `Ingestion.FunctionBucketExample` | index.js:53-60 | "f1.js" of type text/javascript in js-files is stored under "f1" as `{function: text, id: "f1"}`. |
| `Ingestion.IdOverrideExample` | index.js:109-116 | A parsed object with id "custom" is stored under "custom" outside json-files, and under "rec" in json-files. |
| `ReadApi.Engine.constructor` | index.js:10-15 | Initial state: no handle, both times 0, not modified. |
| `ReadApi.Engine.IsActive` | index.js:95 | True exactly when a handle is attached. |
| `ReadApi.Engine.IsModified` | index.js:97 | Reports the flag set by the last completed read. |
| `ReadApi.Engine.Read` | index.js:16-76 | Returns the assembled records and rejects with NotFound when `src` is missing. `lastModified` never decreases, and after a read it is the maximum of its old value and every visited timestamp. `isModified` holds exactly when some visited file was newer. `lastRead == lastModified` afterwards. A rejection changes nothing. |
| `ReadApi.Engine.ReadEntries` | index.js:22-69 | The outer loop gives every entry of `src` a bucket of its own and yields the records `Assemble` describes. `lastModified` becomes the maximum of its old value and every file visited. |
| `ReadApi.Engine.ReadBucket` | index.js:31-68 | The inner loop fills the bucket with exactly the fold `FillBucket` describes. `lastModified` folds in the bucket's files. |
| `ReadApi.Engine.Attach` | index.js:77-85 | With no picker the result is `null` and nothing changes. A dismissed picker rejects and nothing changes. A chosen directory is attached and read. |
| `ReadApi.Engine.Call` | index.js:87-93 | Reads through an attached handle, otherwise attaches first. Afterwards a handle is attached exactly when one was before or the picker chose one. |
| `ReadApi.RereadIsUnmodified` | index.js:72-73 | Reading the same tree twice gives the same records, and the second read reports no modification. |

## Left out

- React view code (`Page`, `Title`, `ReadFiles`, `ReactDOM.createRoot`, lines 122-185) is presentation only.
- The directory picker (line 79) is a browser capability. Only its outcome is modelled: absent, dismissed, or chosen.
- The asynchronous handle calls (`getDirectoryHandle`, `values()`, `getFile()`, `text()`) are I/O. The `Root` tree replaces them, and the order of a listing is the order of its sequence. A read that fails part-way, because a file disappears or `text()` rejects, is not modelled. Neither is `src` being a file instead of a directory. Only the missing `src` error is modelled.
- The internals of `JSON.parse` are a foreign library call. The parser is a parameter and is not interpreted.
- The persisted, observable record store (`update`, `change`, `subscribe`, local storage) is not part of this model. It is not in `index.js`.
- Numbers are integers. Non-integer JSON numbers, and the exponent notation JavaScript uses when it prints very large numbers as keys, are not modelled.
- Prototype properties are not modelled. A payload's `id` is looked up among the object's own fields only, and objects produced by `JSON.parse` have no inherited `id`.
- `Ingestion.AssembleBucket` assumes the entries of `src` have distinct names. A real directory always has them. With duplicate names, a later entry overwrites the bucket of an earlier one, as `Assemble` itself shows.
- `Values.PropertyKey`: the key of a non-empty array (its elements' keys joined with commas, `null` elements empty) is given by the function's body through `JoinKeys`, not by its contract.
- `Values.PropertyKey`, `Ingestion.StoreFile` and `ReadApi.Engine.Read` do not model the `TypeError` that converting a truthy `id` to a key throws when the `id` is an object, or an array containing one, with its own `toString` field (index.js:47). The read then rejects after line 40 may already have raised `lastModified`, so `lastRead` and `lastModified` can differ afterwards. The model converts every such object to "[object Object]", inside an array too.
- `Ingestion.FillBucket`, `Ingestion.FillBucketKeys`, `Ingestion.Assemble` and `Ingestion.AssembleKeys` treat every name as an ordinary key. A bucket directory or a logical name called `__proto__` assigns an object's prototype instead and creates no own key. The model gives it an ordinary key.
- `ReadApi.Engine.Read` and `ReadApi.Engine.Call` run one call at a time. Overlapping calls, such as a second click while a read is pending (index.js:153-157), can interleave two `_read` passes on the shared `state`; that interleaving is not modelled.
- `ReadApi.Engine.ReadBucket` builds the bucket as a value and `ReadEntries` stores it under the bucket's name. The code writes into `records[type]` in place, which gives the same final records because no other reference to that bucket exists.
- `ReadApi.Engine.Read`: `isModified` is characterised through the class invariant `lastRead == lastModified`. The invariant holds from construction and after every read, because a read that rejects changes nothing.
