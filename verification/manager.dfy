/** The storage-facing helpers: record lookup, the object list of an S3
    batch delete, and the two external calls a deletion makes. The AWS
    clients themselves are not modelled; every call they would serve is a
    `Call` value whose outcome an `Oracle` decides. */
module Manager {
  import opened Base
  import opened Stplib

  /** An `s3.ObjectIdentifier` with only its key set. */
  datatype ObjectIdentifier = ObjectIdentifier(key: string)

  /** An external call the application makes:
      - `DeleteObjects`: one S3 batch delete of `objects` from `bucket`;
      - `DeleteItem`: deletion of the row whose `FileName` is `fileName`. */
  datatype Call =
    | DeleteObjects(bucket: string, objects: seq<ObjectIdentifier>)
    | DeleteItem(table: string, fileName: string)

  /** The external services: given the calls made so far and the next one,
      the error that call returns, or `None` when it succeeds. */
  type Oracle = (seq<Call>, Call) -> Option<Err>

  /** The table scan `GetItems` performs: all rows of the named table, or the
      error the scan reported. */
  type Scanner = string -> Result<seq<ImgInfo>>

  /** The first index at or after `from` whose record is named `fname`. */
  function SearchFrom(items: seq<ImgInfo>, fname: string, from: nat): (r: Option<nat>)
    requires from <= |items|
    ensures r.Some? ==> from <= r.value < |items| && items[r.value].fileName == fname
    ensures r.Some? ==> forall j :: from <= j < r.value ==> items[j].fileName != fname
    ensures r.None? <==> forall j :: from <= j < |items| ==> items[j].fileName != fname
    decreases |items| - from
  {
    if from == |items| then None
    else if items[from].fileName == fname then Some(from)
    else SearchFrom(items, fname, from + 1)
  }

  /** `SearchItem`: the position of the first record named `fname`; the Go
      function returns a pointer to that element, or nil when there is none.
      The records are a value, so the search cannot change them. */
  function SearchItem(items: seq<ImgInfo>, fname: string): (r: Option<nat>)
    ensures r.Some? ==> r.value < |items| && items[r.value].fileName == fname
    ensures r.Some? ==> forall j :: 0 <= j < r.value ==> items[j].fileName != fname
    ensures r.None? <==> forall j :: 0 <= j < |items| ==> items[j].fileName != fname
  {
    SearchFrom(items, fname, 0)
  }

  /** The keys of an object list; the inverse of `SetObjs`. */
  function Keys(objs: seq<ObjectIdentifier>): (keys: seq<string>)
    ensures |keys| == |objs|
    ensures forall i :: 0 <= i < |objs| ==> keys[i] == objs[i].key
  {
    if objs == [] then [] else Keys(objs[..|objs| - 1]) + [objs[|objs| - 1].key]
  }

  /** `SetObjs`: one object identifier per file name, appended in order. */
  function SetObjs(files: seq<string>): (objs: seq<ObjectIdentifier>)
    ensures |objs| == |files|
    ensures forall i :: 0 <= i < |files| ==> objs[i].key == files[i]
  {
    if files == [] then [] else SetObjs(files[..|files| - 1]) + [ObjectIdentifier(files[|files| - 1])]
  }

  /** `SetObjs` loses nothing: the keys of its result are its input. */
  lemma SetObjsKeys(files: seq<string>)
    ensures Keys(SetObjs(files)) == files
  {
  }

  /** And every object list whose identifiers carry only a key is rebuilt by
      `SetObjs` from its keys. */
  lemma KeysSetObjs(objs: seq<ObjectIdentifier>)
    ensures SetObjs(Keys(objs)) == objs
  {
  }

  /** The S3 request `DelObjS3(bucket, files)` sends. */
  function DelObjS3(bucket: string, files: seq<string>): (c: Call)
    ensures c.DeleteObjects? && c.bucket == bucket
    ensures Keys(c.objects) == files
  {
    SetObjsKeys(files);
    DeleteObjects(bucket, SetObjs(files))
  }
}
