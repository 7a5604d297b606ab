/** The index page's view model: records projected to HTML tag attributes,
    ordered most recent first, plus the layout predicate the template uses. */
module Page {
  import opened Base
  import opened Stplib
  import GoInt
  import Manager

  /** The attributes of one gallery entry: the link, the thumbnail and its
      alternative text. */
  datatype ImgTag = ImgTag(href: string, imgSrc: string, alt: string)

  /** The template's parameters; `flexNum` is the number of images per row. */
  datatype PageParam = PageParam(items: seq<ImgTag>, flexNum: int)

  /** The images per row the index page always uses. */
  const FlexNum: int := 4

  /** The value of a configuration key; a Go map yields "" for a missing key. */
  function ConfValue(conf: map<string, string>, key: string): (v: string)
    ensures key in conf ==> v == conf[key]
    ensures key !in conf ==> v == ""
  {
    if key in conf then conf[key] else ""
  }

  /** `CreateImgTag`: one tag per record, in record order, appended starting
      from an empty list. Both links are the base path `bp` followed by the
      record's object key; the alternative text is the file name. */
  function CreateImgTag(items: seq<ImgInfo>, bp: string): (tags: seq<ImgTag>)
    ensures |tags| == |items|
    ensures forall i :: 0 <= i < |items| ==>
      && tags[i].href == bp + items[i].orgPath
      && tags[i].imgSrc == bp + items[i].resizedFilePath
      && tags[i].alt == items[i].fileName
  {
    if items == [] then []
    else
      var v := items[|items| - 1];
      CreateImgTag(items[..|items| - 1], bp) + [ImgTag(bp + v.orgPath, bp + v.resizedFilePath, v.fileName)]
  }

  /** Projection commutes with concatenation: the tags of a page are the
      tags of its parts, in order. */
  lemma CreateImgTagAppend(a: seq<ImgInfo>, b: seq<ImgInfo>, bp: string)
    ensures CreateImgTag(a + b, bp) == CreateImgTag(a, bp) + CreateImgTag(b, bp)
  {
  }

  /** `IsDiv(i, base, plus)`: whether `i + plus`, computed in Go's 64-bit
      `int`, leaves remainder zero under Go's `%`. A zero `base` makes Go
      panic, so callers must not pass one. */
  function IsDiv(i: int, base: int, plus: int): (r: bool)
    requires GoInt.IsInt(i) && GoInt.IsInt(base) && GoInt.IsInt(plus)
    requires base != 0
    ensures r <==> GoInt.Wrap(i + plus) % base == 0
    ensures GoInt.IsInt(i + plus) ==> (r <==> (i + plus) % base == 0)
  {
    var sum := GoInt.Wrap(i + plus);
    GoInt.RemZeroIff(sum, base);
    GoInt.Rem(sum, base) == 0
  }

  /** The worked examples: entry 3 ends a row of four when counting from one,
      entry 2 does not. */
  lemma IsDivExamples()
    ensures IsDiv(3, 4, 1)
    ensures !IsDiv(2, 4, 1)
    ensures IsDiv(0, 4, 0)
  {
  }

  /** No record is created later than one before it: the order `sort.Slice`
      establishes with `After` as its less function. */
  predicate NewestFirst(s: seq<ImgInfo>) {
    forall i, j :: 0 <= i < j < |s| ==> !After(s[j], s[i])
  }

  /** Inserts `x` into a newest-first sequence after every record newer than it. */
  function Insert(x: ImgInfo, s: seq<ImgInfo>): (r: seq<ImgInfo>)
    requires NewestFirst(s)
    ensures NewestFirst(r)
    ensures multiset(r) == multiset(s) + multiset{x}
  {
    if s == [] || !After(s[0], x) then
      InsertAtFront(x, s);
      [x] + s
    else
      var rest := Insert(x, s[1..]);
      InsertBehind(x, s, rest);
      [s[0]] + rest
  }

  /** `x` may go first when it is not older than the head of `s`. */
  lemma InsertAtFront(x: ImgInfo, s: seq<ImgInfo>)
    requires NewestFirst(s)
    requires s == [] || !After(s[0], x)
    ensures NewestFirst([x] + s)
    ensures multiset([x] + s) == multiset(s) + multiset{x}
  {
  }

  /** When `x` is older than the head of `s`, the head stays first in front
      of `x` inserted into the rest. */
  lemma InsertBehind(x: ImgInfo, s: seq<ImgInfo>, rest: seq<ImgInfo>)
    requires NewestFirst(s) && |s| > 0 && After(s[0], x)
    requires NewestFirst(rest)
    requires multiset(rest) == multiset(s[1..]) + multiset{x}
    ensures NewestFirst([s[0]] + rest)
    ensures multiset([s[0]] + rest) == multiset(s) + multiset{x}
  {
    forall k | 0 <= k < |rest|
      ensures !After(rest[k], s[0])
    {
      assert rest[k] in multiset(rest);
      if rest[k] != x {
        assert rest[k] in multiset(s[1..]);
        var j := IndexOf(s[1..], rest[k]);
        assert s[j + 1] == rest[k];
      }
    }
    DropHead(s);
  }

  /** The ordering step of `InitPage`. Go's `sort.Slice` is not stable, so
      only what its contract promises is stated: a permutation, newest first.
      The model's order among records with equal timestamps is one of the
      orders `sort.Slice` may produce. */
  function SortNewestFirst(s: seq<ImgInfo>): (r: seq<ImgInfo>)
    ensures NewestFirst(r)
    ensures multiset(r) == multiset(s)
  {
    if s == [] then []
    else
      assert s == [s[0]] + s[1..];
      Insert(s[0], SortNewestFirst(s[1..]))
  }

  /** The creation times of a sequence of records, in order. */
  function Timestamps(s: seq<ImgInfo>): (ts: seq<int>)
    ensures |ts| == |s|
  {
    if s == [] then [] else [s[0].createdAt] + Timestamps(s[1..])
  }

  lemma {:induction false} TimestampsAt(s: seq<ImgInfo>)
    ensures forall i :: 0 <= i < |s| ==> Timestamps(s)[i] == s[i].createdAt
  {
    if s != [] {
      TimestampsAt(s[1..]);
    }
  }

  lemma {:induction false} TimestampsAppend(a: seq<ImgInfo>, b: seq<ImgInfo>)
    ensures Timestamps(a + b) == Timestamps(a) + Timestamps(b)
  {
    if a == [] {
      assert a + b == b;
    } else {
      assert (a + b)[1..] == a[1..] + b;
      TimestampsAppend(a[1..], b);
    }
  }

  /** Removing the record at `j` removes it from the multiset. */
  lemma RemoveOne(t: seq<ImgInfo>, j: nat)
    requires j < |t|
    ensures multiset(t[..j] + t[j + 1..]) == multiset(t) - multiset{t[j]}
  {
    var before, after := t[..j], t[j + 1..];
    assert t == before + [t[j]] + after;
    assert multiset(t) == multiset(before) + multiset{t[j]} + multiset(after);
  }

  /** Removing the record at `j` removes its creation time. */
  lemma RemoveOneTimestamp(t: seq<ImgInfo>, j: nat)
    requires j < |t|
    ensures multiset(Timestamps(t[..j] + t[j + 1..])) + multiset{t[j].createdAt} == multiset(Timestamps(t))
  {
    var before, after := t[..j], t[j + 1..];
    assert t == before + ([t[j]] + after);
    TimestampsAppend(before, [t[j]] + after);
    TimestampsAppend([t[j]], after);
    TimestampsAppend(before, after);
    var tb, ta := Timestamps(before), Timestamps(after);
    assert Timestamps([t[j]]) == [t[j].createdAt];
    assert Timestamps(t) == tb + ([t[j].createdAt] + ta);
    assert multiset(Timestamps(t)) == multiset(tb) + (multiset{t[j].createdAt} + multiset(ta));
  }

  /** A non-empty sequence's multiset is its head plus its tail's. */
  lemma DropHead<T>(s: seq<T>)
    requires |s| > 0
    ensures multiset(s) == multiset{s[0]} + multiset(s[1..])
    ensures multiset(s[1..]) == multiset(s) - multiset{s[0]}
  {
    assert s == [s[0]] + s[1..];
  }

  /** Rearranging records rearranges their creation times alike. */
  lemma {:induction false} TimestampsPermutation(s: seq<ImgInfo>, t: seq<ImgInfo>)
    requires multiset(s) == multiset(t)
    ensures multiset(Timestamps(s)) == multiset(Timestamps(t))
    decreases |s|
  {
    if s == [] {
      assert |t| == |multiset(t)| == 0;
    } else {
      var x := s[0];
      DropHead(s);
      var j := IndexOf(t, x);
      var t' := t[..j] + t[j + 1..];
      RemoveOne(t, j);
      assert multiset(s[1..]) == multiset(t');
      TimestampsPermutation(s[1..], t');
      RemoveOneTimestamp(t, j);
      DropHead(Timestamps(s));
      assert Timestamps(s)[1..] == Timestamps(s[1..]);
    }
  }

  /** A position of an element of a sequence. */
  lemma IndexOf<T>(t: seq<T>, x: T) returns (j: nat)
    requires x in multiset(t)
    ensures j < |t| && t[j] == x
  {
    assert x in t;
    j :| 0 <= j < |t| && t[j] == x;
  }

  predicate NonIncreasing(a: seq<int>) {
    forall i, j :: 0 <= i < j < |a| ==> a[i] >= a[j]
  }

  /** A multiset of integers has exactly one non-increasing arrangement. */
  lemma {:induction false} NonIncreasingUnique(a: seq<int>, b: seq<int>)
    requires NonIncreasing(a) && NonIncreasing(b)
    requires multiset(a) == multiset(b)
    ensures a == b
    decreases |a|
  {
    if a == [] {
      assert |b| == |multiset(b)| == 0;
    } else {
      assert |b| == |multiset(b)| == |a|;
      assert a[0] in multiset(b);
      assert b[0] in multiset(a);
      assert a[0] == b[0];
      DropHead(a);
      DropHead(b);
      NonIncreasingUnique(a[1..], b[1..]);
    }
  }

  /** Although `sort.Slice` may order records with equal timestamps in any
      way, every newest-first arrangement of the same records has the same
      sequence of creation times: only ties can differ. */
  lemma NewestFirstDeterminesTimestamps(s: seq<ImgInfo>, t: seq<ImgInfo>)
    requires NewestFirst(s) && NewestFirst(t)
    requires multiset(s) == multiset(t)
    ensures Timestamps(s) == Timestamps(t)
  {
    TimestampsPermutation(s, t);
    TimestampsAt(s);
    TimestampsAt(t);
    NonIncreasingUnique(Timestamps(s), Timestamps(t));
  }

  /** What `InitPage` returns: the records, the page parameters, the error. */
  datatype InitResult = InitResult(items: seq<ImgInfo>, page: PageParam, err: Option<Err>)

  /** `InitPage`: scan the configured table; on failure return no records,
      an empty `PageParam` and the error; otherwise return the records newest
      first and their tags under the configured base URL, four per row. */
  function InitPage(conf: map<string, string>, getItems: Manager.Scanner): (out: InitResult)
    ensures getItems(ConfValue(conf, "table_name")).Fail? ==>
      out == InitResult([], PageParam([], 0), Some(getItems(ConfValue(conf, "table_name")).error))
    ensures getItems(ConfValue(conf, "table_name")).Ok? ==>
      var fetched := getItems(ConfValue(conf, "table_name")).value;
      && out.err.None?
      && multiset(out.items) == multiset(fetched)
      && NewestFirst(out.items)
      && out.page.items == CreateImgTag(out.items, ConfValue(conf, "base_url"))
      && |out.page.items| == |fetched|
      && out.page.flexNum == 4
  {
    match getItems(ConfValue(conf, "table_name"))
    case Fail(e) => InitResult([], PageParam([], 0), Some(e))
    case Ok(items) =>
      var sorted := SortNewestFirst(items);
      assert |sorted| == |multiset(sorted)| == |items|;
      InitResult(sorted, PageParam(CreateImgTag(sorted, ConfValue(conf, "base_url")), FlexNum), None)
  }

  /** Whatever order `sort.Slice` picks among equal timestamps, the page
      `InitPage` builds lists the images with the same sequence of creation
      times as any other newest-first arrangement of the scanned records. */
  lemma InitPageOrderDetermined(conf: map<string, string>, getItems: Manager.Scanner, t: seq<ImgInfo>)
    requires getItems(ConfValue(conf, "table_name")).Ok?
    requires multiset(t) == multiset(getItems(ConfValue(conf, "table_name")).value)
    requires NewestFirst(t)
    ensures Timestamps(InitPage(conf, getItems).items) == Timestamps(t)
  {
    NewestFirstDeterminesTimestamps(InitPage(conf, getItems).items, t);
  }
}
