/** What a filtered listing must return: the matching records, in order. */
module Selection {

  /** A post-fetch filter's answer about one record; Broken is a predicate that could not
      be evaluated, which fails the whole call. */
  datatype Verdict = Matched | Rejected | Broken

  datatype Result<+T> = Ok(value: T) | BadCursor | BadRecord

  function Selected<T>(records: seq<T>, judge: T -> Verdict): seq<T> {
    if records == [] then []
    else
      var last := records[|records| - 1];
      Selected(records[..|records| - 1], judge) + (if judge(last) == Matched then [last] else [])
  }

  predicate Clean<T>(records: seq<T>, judge: T -> Verdict) {
    forall i :: 0 <= i < |records| ==> judge(records[i]) != Broken
  }

  lemma {:induction false} SelectedConcat<T>(a: seq<T>, b: seq<T>, judge: T -> Verdict)
    ensures Selected(a + b, judge) == Selected(a, judge) + Selected(b, judge)
  {
    if b == [] {
      assert a + b == a;
    } else {
      assert (a + b)[..|a + b| - 1] == a + b[..|b| - 1];
      SelectedConcat(a, b[..|b| - 1], judge);
    }
  }

  /** Exactly the matching records are selected, each as often as it is listed. */
  lemma {:induction false} SelectedMeans<T>(records: seq<T>, judge: T -> Verdict, x: T)
    ensures multiset(Selected(records, judge))[x] == if judge(x) == Matched then multiset(records)[x] else 0
  {
    if records != [] {
      SelectedMeans(records[..|records| - 1], judge, x);
      assert records == records[..|records| - 1] + [records[|records| - 1]];
    }
  }

  lemma {:induction false} SelectedShorter<T>(records: seq<T>, judge: T -> Verdict)
    ensures |Selected(records, judge)| <= |records|
  {
    if records != [] {
      SelectedShorter(records[..|records| - 1], judge);
    }
  }

  function Min(a: nat, b: nat): nat {
    if a < b then a else b
  }

  /** One more record inspected. */
  lemma SelectedNext<T>(records: seq<T>, k: nat, judge: T -> Verdict)
    requires k < |records|
    ensures Selected(records[..k + 1], judge)
            == Selected(records[..k], judge) + (if judge(records[k]) == Matched then [records[k]] else [])
    ensures Clean(records[..k + 1], judge) <==> Clean(records[..k], judge) && judge(records[k]) != Broken
  {
    assert records[..k + 1][..k] == records[..k];
    assert records[..k + 1] == records[..k] + [records[k]];
  }

  /** count records from offset on, or as many as there are. */
  function Slice<T>(records: seq<T>, offset: nat, count: nat): seq<T> {
    records[Min(offset, |records|)..Min(offset + count, |records|)]
  }

  lemma SliceExact<T>(records: seq<T>, offset: nat, count: nat)
    ensures offset + count <= |records| ==> Slice(records, offset, count) == records[offset..offset + count]
    ensures count == 0 || offset >= |records| ==> Slice(records, offset, count) == []
  {
  }

  lemma PrefixOfRange<T>(records: seq<T>, from: nat, to: nat, count: nat)
    requires from + count <= to <= |records|
    ensures records[from..to][..count] == records[from..from + count]
  {
  }

  lemma {:induction false} AllSelected<T>(records: seq<T>, judge: T -> Verdict)
    requires forall i :: 0 <= i < |records| ==> judge(records[i]) == Matched
    ensures Selected(records, judge) == records
  {
    if records != [] {
      AllSelected(records[..|records| - 1], judge);
      assert records == records[..|records| - 1] + [records[|records| - 1]];
    }
  }

  /** Everything selected from offset on. */
  function SelectedFrom<T>(records: seq<T>, offset: nat, judge: T -> Verdict): seq<T> {
    Selected(records[Min(offset, |records|)..], judge)
  }

  lemma SelectedSplit<T>(records: seq<T>, offset: nat, count: nat, judge: T -> Verdict)
    ensures SelectedFrom(records, offset, judge)
            == Selected(Slice(records, offset, count), judge) + SelectedFrom(records, offset + count, judge)
  {
    var rest := records[Min(offset, |records|)..];
    assert rest == Slice(records, offset, count) + records[Min(offset + count, |records|)..];
    SelectedConcat(Slice(records, offset, count), records[Min(offset + count, |records|)..], judge);
  }

  lemma SelectedPastEnd<T>(records: seq<T>, offset: nat, judge: T -> Verdict)
    requires offset >= |records|
    ensures SelectedFrom(records, offset, judge) == []
  {
  }

  /** The index of a page's first record, counting pages from 1. */
  function PageStart(page: nat, width: nat): nat
    requires page >= 1
  {
    if page == 1 then 0 else PageStart(page - 1, width) + width
  }

  /** The part of a listing the server answers for one page. */
  function PageOf<T>(records: seq<T>, page: nat, width: nat): seq<T>
    requires page >= 1
  {
    records[Min(PageStart(page, width), |records|)..Min(PageStart(page, width) + width, |records|)]
  }

  lemma {:induction false} PageStartIsProduct(page: nat, width: nat)
    requires page >= 1
    ensures PageStart(page, width) == (page - 1) * width
  {
    if page > 1 {
      PageStartIsProduct(page - 1, width);
      assert (page - 1) * width == (page - 2) * width + width;
    }
  }

  lemma PageEndIsProduct(page: nat, width: nat)
    requires page >= 1
    ensures page * width == PageStart(page, width) + width
  {
  }

  /** The page that holds an offset, and the offset's place in it. */
  lemma PageHolding(offset: nat, width: nat)
    requires width >= 1
    ensures PageStart(offset / width + 1, width) + offset % width == offset
    ensures offset % width < width
  {
    PageStartIsProduct(offset / width + 1, width);
  }

  /** Dropping the records before a place in a page leaves the listing from there to the
      end of the page. */
  lemma PageFrom<T>(records: seq<T>, page: nat, width: nat, skipped: nat)
    requires page >= 1 && skipped < width
    ensures var issues := PageOf(records, page, width);
            var offset := PageStart(page, width) + skipped;
            var rest := issues[Min(skipped, |issues|)..];
            && |issues| <= width
            && (offset < |records| ==> rest == records[offset..offset + |rest|] && rest != [])
            && (offset >= |records| ==> rest == [] && |issues| < width)
            && (|issues| < width ==> offset + |rest| >= |records|)
            && (|issues| == width ==> |rest| == width - skipped)
            && offset + |rest| <= PageStart(page, width) + width
  {
  }
}
