/** `DeleteImages`: for each target file name, find its record, delete the
    record's two objects from S3, then delete the record from the table;
    stop at the first failure, and stop silently at the first name that has
    no record. The model returns the error together with the calls made. */
module Deletion {
  import opened Base
  import opened Stplib
  import opened Manager

  /** The error `DeleteImages` returns and the external calls it made, in order. */
  datatype Outcome = Outcome(err: Option<Err>, calls: seq<Call>)

  /** The S3 request for one target: the original and the resized object of
      its record, in that order. */
  function S3Call(bucket: string, tgt: ImgInfo): (c: Call)
    ensures c.DeleteObjects? && c.bucket == bucket
    ensures Keys(c.objects) == [tgt.orgPath, tgt.resizedFilePath]
  {
    DelObjS3(bucket, [tgt.orgPath, tgt.resizedFilePath])
  }

  /** How many leading targets have a record: the targets the loop reaches
      before it meets a missing one. */
  function FoundPrefix(items: seq<ImgInfo>, files: seq<string>): (n: nat)
    ensures n <= |files|
    ensures forall k :: 0 <= k < n ==> SearchItem(items, files[k]).Some?
    ensures n < |files| ==> SearchItem(items, files[n]).None?
  {
    if files == [] || SearchItem(items, files[0]).None? then 0
    else 1 + FoundPrefix(items, files[1..])
  }

  /** The calls `DeleteImages` makes when every call succeeds: two per target
      up to the first target without a record. */
  function Plan(bucket: string, items: seq<ImgInfo>, files: seq<string>, table: string): (calls: seq<Call>)
    ensures |calls| == 2 * FoundPrefix(items, files)
  {
    if files == [] then []
    else match SearchItem(items, files[0])
      case None => []
      case Some(i) => [S3Call(bucket, items[i]), DeleteItem(table, files[0])] + Plan(bucket, items, files[1..], table)
  }

  /** Every call in `calls` succeeds when made after `history` and the calls
      before it. */
  predicate SucceedAfter(oracle: Oracle, history: seq<Call>, calls: seq<Call>) {
    forall j :: 0 <= j < |calls| ==> oracle(history + calls[..j], calls[j]).None?
  }

  /** The calls before the last one succeeded and the last one failed with `e`. */
  predicate FailsLast(oracle: Oracle, history: seq<Call>, calls: seq<Call>, e: Err) {
    && |calls| > 0
    && SucceedAfter(oracle, history, calls[..|calls| - 1])
    && oracle(history + calls[..|calls| - 1], calls[|calls| - 1]) == Some(e)
  }

  lemma SucceedAfterAppend(oracle: Oracle, history: seq<Call>, xs: seq<Call>, ys: seq<Call>)
    requires SucceedAfter(oracle, history, xs)
    requires SucceedAfter(oracle, history + xs, ys)
    ensures SucceedAfter(oracle, history, xs + ys)
  {
    forall j | 0 <= j < |xs + ys|
      ensures oracle(history + (xs + ys)[..j], (xs + ys)[j]).None?
    {
      if j < |xs| {
        assert (xs + ys)[..j] == xs[..j];
      } else {
        assert (xs + ys)[..j] == xs + ys[..j - |xs|];
        assert history + (xs + ys)[..j] == (history + xs) + ys[..j - |xs|];
      }
    }
  }

  lemma FailsLastAppend(oracle: Oracle, history: seq<Call>, xs: seq<Call>, ys: seq<Call>, e: Err)
    requires SucceedAfter(oracle, history, xs)
    requires FailsLast(oracle, history + xs, ys, e)
    ensures FailsLast(oracle, history, xs + ys, e)
  {
    var init := ys[..|ys| - 1];
    SucceedAfterAppend(oracle, history, xs, init);
    assert (xs + ys)[..|xs + ys| - 1] == xs + init;
    assert history + (xs + init) == (history + xs) + init;
  }

  /** The loop of `DeleteImages` from the target `files[0]` on, after the
      calls in `history` have been made and have succeeded. */
  function Run(bucket: string, items: seq<ImgInfo>, files: seq<string>, table: string,
               oracle: Oracle, history: seq<Call>): (out: Outcome)
    ensures out.calls <= Plan(bucket, items, files, table)
    ensures out.err.None? ==>
      out.calls == Plan(bucket, items, files, table) && SucceedAfter(oracle, history, out.calls)
    ensures out.err.Some? ==> FailsLast(oracle, history, out.calls, out.err.value)
    decreases |files|
  {
    if files == [] then Outcome(None, [])
    else match SearchItem(items, files[0])
      case None => Outcome(None, [])
      case Some(i) =>
        var s3 := S3Call(bucket, items[i]);
        var del := DeleteItem(table, files[0]);
        assert Plan(bucket, items, files, table) == [s3, del] + Plan(bucket, items, files[1..], table);
        match oracle(history, s3)
        case Some(e) =>
          FirstCallsAnswered(oracle, history, s3, del);
          Outcome(Some(e), [s3])
        case None =>
          FirstCallsAnswered(oracle, history, s3, del);
          match oracle(history + [s3], del)
          case Some(e) =>
            Outcome(Some(e), [s3, del])
          case None =>
            var rest := Run(bucket, items, files[1..], table, oracle, history + [s3, del]);
            if rest.err.None? then
              SucceedAfterAppend(oracle, history, [s3, del], rest.calls);
              Outcome(None, [s3, del] + rest.calls)
            else
              FailsLastAppend(oracle, history, [s3, del], rest.calls, rest.err.value);
              Outcome(rest.err, [s3, del] + rest.calls)
  }

  /** How the answers to one target's two calls read as `FailsLast` and
      `SucceedAfter`. */
  lemma FirstCallsAnswered(oracle: Oracle, history: seq<Call>, s3: Call, del: Call)
    ensures oracle(history, s3).Some? ==> FailsLast(oracle, history, [s3], oracle(history, s3).value)
    ensures oracle(history, s3).None? && oracle(history + [s3], del).Some? ==>
      FailsLast(oracle, history, [s3, del], oracle(history + [s3], del).value)
    ensures oracle(history, s3).None? && oracle(history + [s3], del).None? ==>
      SucceedAfter(oracle, history, [s3, del])
  {
    assert [s3][..0] == [] && [s3, del][..0] == [] && [s3, del][..1] == [s3];
    assert history + [] == history;
  }

  /** `DeleteImages(bucket, items, files, table)` with the services answering
      as `oracle` says. Its calls are a prefix of the plan. It returns nil
      only after every planned call succeeded. An error is the answer to the
      last call made, and every call before that one succeeded. A first
      target without a record ends the run at once with nil and no calls. */
  function DeleteImages(bucket: string, items: seq<ImgInfo>, files: seq<string>, table: string,
                        oracle: Oracle): (out: Outcome)
    ensures out.calls <= Plan(bucket, items, files, table)
    ensures out.err.None? ==>
      out.calls == Plan(bucket, items, files, table) && SucceedAfter(oracle, [], out.calls)
    ensures out.err.Some? ==> FailsLast(oracle, [], out.calls, out.err.value)
    ensures |files| > 0 && SearchItem(items, files[0]).None? ==> out == Outcome(None, [])
  {
    Run(bucket, items, files, table, oracle, [])
  }

  /** `DeleteImages` returns nil exactly when every call of the plan would
      succeed. */
  lemma DeleteImagesNilIff(bucket: string, items: seq<ImgInfo>, files: seq<string>, table: string,
                           oracle: Oracle)
    ensures DeleteImages(bucket, items, files, table, oracle).err.None?
        <==> SucceedAfter(oracle, [], Plan(bucket, items, files, table))
  {
    var out := DeleteImages(bucket, items, files, table, oracle);
    var plan := Plan(bucket, items, files, table);
    if out.err.Some? {
      var k := |out.calls| - 1;
      assert plan[..k] == out.calls[..k] && plan[k] == out.calls[k];
      assert [] + plan[..k] == [] + out.calls[..k];
      assert oracle([] + plan[..k], plan[k]).Some?;
    }
  }

  lemma {:induction false} PlanAt(bucket: string, items: seq<ImgInfo>, files: seq<string>, table: string, k: nat)
    requires k < FoundPrefix(items, files)
    ensures 2 * k + 1 < |Plan(bucket, items, files, table)|
    ensures Plan(bucket, items, files, table)[2 * k] == S3Call(bucket, items[SearchItem(items, files[k]).value])
    ensures Plan(bucket, items, files, table)[2 * k + 1] == DeleteItem(table, files[k])
  {
    PlanUnfold(bucket, items, files, table);
    if k > 0 {
      var rest := Plan(bucket, items, files[1..], table);
      PlanAt(bucket, items, files[1..], table, k - 1);
      assert files[k] == files[1..][k - 1];
      PairThenIndex(Plan(bucket, items, files, table), rest, 2 * k);
      PairThenIndex(Plan(bucket, items, files, table), rest, 2 * k + 1);
    }
  }

  lemma PairThenIndex(plan: seq<Call>, rest: seq<Call>, m: nat)
    requires |plan| == |rest| + 2 && plan[2..] == rest
    requires 2 <= m < |plan|
    ensures plan[m] == rest[m - 2]
  {
  }

  /** One step of the plan for a first target that has a record. */
  lemma PlanUnfold(bucket: string, items: seq<ImgInfo>, files: seq<string>, table: string)
    requires 0 < FoundPrefix(items, files)
    ensures FoundPrefix(items, files[1..]) == FoundPrefix(items, files) - 1
    ensures Plan(bucket, items, files, table)
         == [S3Call(bucket, items[SearchItem(items, files[0]).value]), DeleteItem(table, files[0])]
          + Plan(bucket, items, files[1..], table)
  {
  }

  /** The plan has two calls per leading target that has a record: for the
      k-th one, the S3 delete of its first matching record's two objects,
      then the table delete keyed by the target name itself. */
  lemma {:induction false} PlanShape(bucket: string, items: seq<ImgInfo>, files: seq<string>, table: string)
    ensures forall k :: 0 <= k < FoundPrefix(items, files) ==>
      && Plan(bucket, items, files, table)[2 * k] == S3Call(bucket, items[SearchItem(items, files[k]).value])
      && Plan(bucket, items, files, table)[2 * k + 1] == DeleteItem(table, files[k])
  {
    forall k | 0 <= k < FoundPrefix(items, files)
      ensures Plan(bucket, items, files, table)[2 * k] == S3Call(bucket, items[SearchItem(items, files[k]).value])
      ensures Plan(bucket, items, files, table)[2 * k + 1] == DeleteItem(table, files[k])
    {
      PlanAt(bucket, items, files, table, k);
    }
  }

  /** The loop from a missing target on is the loop without it and the
      targets after it. */
  lemma {:induction false} RunCutsOffAtMissing(bucket: string, items: seq<ImgInfo>, files: seq<string>,
                                                table: string, oracle: Oracle, history: seq<Call>, k: nat)
    requires k < |files| && SearchItem(items, files[k]).None?
    ensures Run(bucket, items, files, table, oracle, history) == Run(bucket, items, files[..k], table, oracle, history)
    decreases k
  {
    if k > 0 && SearchItem(items, files[0]).Some? {
      var i := SearchItem(items, files[0]).value;
      var s3 := S3Call(bucket, items[i]);
      var del := DeleteItem(table, files[0]);
      assert files[..k][0] == files[0];
      assert files[..k][1..] == files[1..][..k - 1];
      RunCutsOffAtMissing(bucket, items, files[1..], table, oracle, history + [s3, del], k - 1);
    }
  }

  /** A target without a record ends `DeleteImages`: with the targets after
      it dropped, the result and the calls are the same. */
  lemma MissingTargetCutsOff(bucket: string, items: seq<ImgInfo>, files: seq<string>, table: string,
                             oracle: Oracle, k: nat)
    requires k < |files| && SearchItem(items, files[k]).None?
    ensures DeleteImages(bucket, items, files, table, oracle) == DeleteImages(bucket, items, files[..k], table, oracle)
  {
    RunCutsOffAtMissing(bucket, items, files, table, oracle, [], k);
  }

  /** In the plan, a table delete sits at an odd position, right after the
      S3 delete of the first record matching its key. */
  lemma {:induction false} PlanDeleteItemAt(bucket: string, items: seq<ImgInfo>, files: seq<string>,
                                             table: string, j: nat)
    requires j < |Plan(bucket, items, files, table)|
    requires Plan(bucket, items, files, table)[j].DeleteItem?
    ensures j > 0
    ensures Plan(bucket, items, files, table)[j].table == table
    ensures SearchItem(items, Plan(bucket, items, files, table)[j].fileName).Some?
    ensures Plan(bucket, items, files, table)[j - 1]
         == S3Call(bucket, items[SearchItem(items, Plan(bucket, items, files, table)[j].fileName).value])
  {
    var plan := Plan(bucket, items, files, table);
    var rest := Plan(bucket, items, files[1..], table);
    assert plan == [plan[0], plan[1]] + rest;
    if j >= 2 {
      assert plan[j] == rest[j - 2];
      PlanDeleteItemAt(bucket, items, files[1..], table, j - 2);
      assert plan[j - 1] == rest[j - 3];
    }
  }

  /** Every table delete `DeleteImages` makes comes right after the S3 delete
      of the same target's first matching record, and that S3 delete
      succeeded: a failed S3 delete is never followed by a table delete. */
  lemma MetadataDeleteFollowsS3Success(bucket: string, items: seq<ImgInfo>, files: seq<string>, table: string,
                                       oracle: Oracle, j: nat)
    requires j < |DeleteImages(bucket, items, files, table, oracle).calls|
    requires DeleteImages(bucket, items, files, table, oracle).calls[j].DeleteItem?
    ensures
      var calls := DeleteImages(bucket, items, files, table, oracle).calls;
      && j > 0
      && calls[j].table == table
      && SearchItem(items, calls[j].fileName).Some?
      && calls[j - 1] == S3Call(bucket, items[SearchItem(items, calls[j].fileName).value])
      && oracle(calls[..j - 1], calls[j - 1]).None?
  {
    var out := DeleteImages(bucket, items, files, table, oracle);
    var plan := Plan(bucket, items, files, table);
    assert out.calls[j] == plan[j];
    PlanDeleteItemAt(bucket, items, files, table, j);
    assert out.calls[j - 1] == plan[j - 1];
    EarlierCallSucceeded(out, oracle, j - 1);
  }

  /** In an outcome of `DeleteImages`, every call but the last succeeded. */
  lemma EarlierCallSucceeded(out: Outcome, oracle: Oracle, j: nat)
    requires j + 1 < |out.calls|
    requires out.err.None? ==> SucceedAfter(oracle, [], out.calls)
    requires out.err.Some? ==> FailsLast(oracle, [], out.calls, out.err.value)
    ensures oracle(out.calls[..j], out.calls[j]).None?
  {
    if out.err.None? {
      assert [] + out.calls[..j] == out.calls[..j];
    } else {
      var init := out.calls[..|out.calls| - 1];
      assert init[j] == out.calls[j] && init[..j] == out.calls[..j];
      assert [] + init[..j] == out.calls[..j];
    }
  }

  /** When every target has a record and the services never fail, the
      result is nil and the calls are exactly an S3 delete and a table delete
      per target, in target order. */
  lemma AllFoundAllSucceed(bucket: string, items: seq<ImgInfo>, files: seq<string>, table: string,
                           oracle: Oracle)
    requires forall k :: 0 <= k < |files| ==> SearchItem(items, files[k]).Some?
    requires forall h, c :: oracle(h, c).None?
    ensures DeleteImages(bucket, items, files, table, oracle).err.None?
    ensures |DeleteImages(bucket, items, files, table, oracle).calls| == 2 * |files|
    ensures forall k :: 0 <= k < |files| ==>
      && DeleteImages(bucket, items, files, table, oracle).calls[2 * k]
         == S3Call(bucket, items[SearchItem(items, files[k]).value])
      && DeleteImages(bucket, items, files, table, oracle).calls[2 * k + 1] == DeleteItem(table, files[k])
  {
    DeleteImagesNilIff(bucket, items, files, table, oracle);
    PlanShape(bucket, items, files, table);
  }

  /** The worked record of the single-target examples. */
  const Cat := ImgInfo("cat.jpg", "orig/cat.jpg", "resized/cat.jpg", 0)

  /** A target with a record is deleted from S3 by both of its paths and
      then from the table by its name. */
  lemma FoundTargetExample()
    ensures DeleteImages("b", [Cat], ["cat.jpg"], "t", (h, c) => None)
         == Outcome(None, [DelObjS3("b", ["orig/cat.jpg", "resized/cat.jpg"]), DeleteItem("t", "cat.jpg")])
  {
  }

  /** A failing S3 delete ends the run with its error before the table is
      touched. */
  lemma S3FailureExample()
    ensures DeleteImages("b", [Cat], ["cat.jpg"], "t",
                         (h, c: Call) => if c.DeleteObjects? then Some(Err("denied")) else None)
         == Outcome(Some(Err("denied")), [DelObjS3("b", ["orig/cat.jpg", "resized/cat.jpg"])])
  {
  }

  /** A target without a record yields nil and no calls, whatever the
      services would have answered. */
  lemma MissingTargetExample()
    ensures DeleteImages("b", [Cat], ["dog.jpg"], "t", (h, c) => Some(Err("unreachable"))) == Outcome(None, [])
  {
  }
}
