# stph gallery core in Dafny

This project models the logic inside *stph*, a small Go web application. The
application lists images stored in an S3 bucket, renders them as an HTML
gallery and deletes an image on request. A deletion removes the image's
two S3 objects and then its metadata row in a DynamoDB table. AWS, YAML,
HTTP and `html/template` are replaced by plain values and oracles. What is
left is pure code over sequences:

- `Manager` (manager.go): the first-match lookup `SearchItem`, the S3 object
  list `SetObjs`, and the request `DelObjS3` sends. The two external
  deletions are `Call` values. An `Oracle` decides their outcome from the
  calls made so far and the call being made. The table scan `GetItems` is a
  `Scanner` oracle.
- `Page` (main.go): the view projection `CreateImgTag`, the template's
  layout predicate `IsDiv`, the newest-first ordering and `InitPage`.
- `Deletion` (main.go): `DeleteImages`, a pure function. It returns the
  error and the trace of external calls it made. Its partner is `Plan`,
  the calls it makes when nothing fails.
- `Stplib`: the `ImgInfo` record of the external `stplib` package. Only the
  fields the application uses are kept, and `CreatedAt` is an integer.
- `GoInt`: Go's 64-bit `int` wrap-around and truncating `%`.
- `Base`: `Option`, `Result` and `Err`, for Go's nil pointers and `error`s.

Notes on faithfulness:

- `SearchItem` returns the index of the match where Go returns
  `&items[i]`. Sequences are values, so the lookup cannot change them.
- `InitPage` reads `table_name` and `base_url` from the configuration map.
  A missing key reads as `""`, as a Go map lookup does.
- On a scan error, `InitPage` returns an empty record list and
  `PageParam{}`: no items and `FlexNum` 0. Go's nil and empty slices are
  both the empty sequence here.
- The code sorts with `sort.Slice`, which is not stable. A design that
  keeps fetch order among equal timestamps would need a stable sort. The
  code does not use one, so the model follows the code and claims no tie
  order. Its insertion sort is one order `sort.Slice` may
  produce. `Page.NewestFirstDeterminesTimestamps` proves what is fixed
  anyway: the sequence of creation times.
- `IsDiv` computes `i + plus` in 64-bit two's complement, the width of Go's
  `int` on a 64-bit platform, and uses Go's
  truncating `%`. It panics in Go when `base` is 0, which is a
  precondition here. Truncated and Euclidean remainders agree on zero, so
  `IsDiv` is exactly divisibility of the wrapped sum.
- In `DeleteImages`, a target name without a record ends the loop. It
  returns nil, and later names are never looked at. The model keeps this
  behaviour as written. `Deletion.DeleteImages` and
  `Deletion.MissingTargetCutsOff` pin it down.
- There is no rollback. If the table delete fails after S3 reported no
  request error, the error is returned and nothing is undone. A nil answer
  from the S3 call does not mean the objects are gone: per-key failures in
  the batch response are ignored. So a row can also be deleted while its
  objects remain.

## Model

| member | source | states |
|---|---|---|
| Manager.SearchFrom | manager.go:36-41 | the scan from a position returns the first index at or after it whose record has the name; none exactly when no record from there on has it |
| Manager.SearchItem | manager.go:35-42 | the result is an index of a record named `fname`, and no earlier record has that name; the result is nil iff no record has the name |
| Manager.SetObjs | manager.go:93-101 | one identifier per file name, same length, identifier `i` keyed by `files[i]`; empty input gives empty output |
| Manager.SetObjsKeys | manager.go:93-101 | reading back the keys of `SetObjs(files)` gives `files` |
| Manager.KeysSetObjs | manager.go:93-101 | every key-only object list is `SetObjs` of its keys, so `SetObjs` is a bijection |
| Manager.DelObjS3 | manager.go:104-111 | the S3 batch delete targets the given bucket and exactly the given keys, in order |
| Page.ConfValue | main.go:89 | a present key reads its value; a missing key reads the empty string, as a Go map read does |
| Page.CreateImgTag | main.go:33-43 | as many tags as records; tag `i` links to `bp + OrgPath`, shows `bp + ResizedFilePath`, and has the file name as alt text, in record order |
| Page.CreateImgTagAppend | main.go:33-43 | the tags of a concatenation are the concatenation of the tags |
| Page.IsDiv | main.go:69-71 | true iff `base` divides the 64-bit sum `i + plus`; without overflow, iff `base` divides `i + plus` |
| Page.IsDivExamples | main.go:69-71 | `IsDiv(3, 4, 1)` and `IsDiv(0, 4, 0)` hold; `IsDiv(2, 4, 1)` does not |
| GoInt.Wrap | main.go:70 | the 64-bit result of `i + plus` is an `int` congruent to the true sum, equal to it when the sum fits |
| GoInt.Rem | main.go:70 | Go's remainder differs from the dividend by a multiple of the divisor, is smaller than the divisor in magnitude and has the sign of the dividend, which fixes it uniquely |
| GoInt.RemZeroIff | main.go:70 | Go's truncated remainder is zero iff the Euclidean one is |
| Page.Insert | main.go:96-99 | inserting into a newest-first sequence keeps it newest first and adds exactly the one record |
| Page.SortNewestFirst | main.go:96-99 | the result is a permutation of the input in which no record is newer than one before it |
| Page.NewestFirstDeterminesTimestamps | main.go:96-99 | any two newest-first permutations of the same records have the same sequence of creation times |
| Page.InitPage | main.go:88-105 | on scan failure: no records, empty `PageParam`, the scan's error; on success: no error, a newest-first permutation of the scanned records, their tags under the base URL, four per row |
| Page.InitPageOrderDetermined | main.go:96-104 | the page's creation-time order agrees with every other valid outcome of the unstable sort |
| Deletion.S3Call | main.go:53 | the S3 request for a target names the bucket and exactly the record's original and resized paths |
| Deletion.FoundPrefix | main.go:48-51 | counts the leading targets that have a record; the next target, if any, has none |
| Deletion.Run | main.go:48-66 | the loop's calls are a prefix of the plan; nil means all planned calls were made and succeeded; an error is the answer to the last call and all earlier calls succeeded |
| Deletion.DeleteImages | main.go:47-67 | as for the loop, from an empty history; a first target without a record returns nil with no calls |
| Deletion.DeleteImagesNilIff | main.go:47-67 | the result is nil iff every call of the plan succeeds |
| Deletion.Plan | main.go:48-64 | the calls made when nothing fails number exactly two per leading target that has a record |
| Deletion.PlanShape | main.go:48-64 | for the k-th leading found target, plan entries 2k and 2k+1 are the S3 delete of the first match's two paths, then the table delete keyed by the target name |
| Deletion.RunCutsOffAtMissing | main.go:48-51 | from any history, the loop over targets with a missing one equals the loop over the targets before it |
| Deletion.MissingTargetCutsOff | main.go:48-51 | a target without a record makes later targets irrelevant: same error, same calls |
| Deletion.PlanDeleteItemAt | main.go:53-58 | in the plan a table delete for the configured table directly follows the S3 delete of its key's first matching record |
| Deletion.MetadataDeleteFollowsS3Success | main.go:53-63 | every table delete made follows the S3 delete of the same target's record, and that S3 call returned nil |
| Deletion.AllFoundAllSucceed | main.go:48-66 | with every target found and no failures: nil, and exactly S3 delete then table delete per target, in order |
| Deletion.FoundTargetExample | main.go:49-66 | deleting `cat.jpg` with no failures deletes `orig/cat.jpg` and `resized/cat.jpg` from S3, then the row keyed `cat.jpg`, and returns nil |
| Deletion.S3FailureExample | main.go:53-57 | when the S3 delete of `cat.jpg` fails, its error is returned and no table delete is made |
| Deletion.MissingTargetExample | main.go:49-51 | deleting a name without a record returns nil with no external calls, even when every call would fail |

## Left out

- `ReadConfig` (config.go): file I/O and YAML decoding. The configuration is a parameter.
- `CreatePage`: template parsing and execution by `html/template`. Only its helper `IsDiv` is modelled.
- `IndexPage`, `DeletePage`, `RegistHandle`, `main`: `net/http` routing, status codes and redirects.
- `CreateSession`, `GetItems`, `DeleteItem`, `PutItem`, `PutItems`, `NewS3Sess` and the service call inside `DelObjS3`: AWS SDK calls. `GetItems` is a `Scanner` oracle, and the two deletions are `Call`s answered by an `Oracle`. `PutItem` and `PutItems` are not called by the modelled code.
- Logging with `fmt.Printf`/`Println`, and the global `Conf`, `s3svc` and `db` variables. Their values are parameters.
- Page.IsDiv: Go's `int` is taken to be 64 bits wide; on a 32-bit platform it is 32 bits and `IsDiv` would wrap at a different bound.
- `time.Time`: `CreatedAt` is an integer, and `After` is `>`.
- Manager.DelObjS3: the batch response and its per-key errors are ignored, as they are by the code, so an oracle answer of `None` means `DelObjS3` returned nil, not that the objects were deleted.
- Page.SortNewestFirst: claims permutation and order only. The tie order of `sort.Slice` is unspecified, so none is stated.
