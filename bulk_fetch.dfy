/**
 * `get_image_bulk`: the loop that walks the `(group, url)` pairs, drops URLs already
 * seen, buffers the URLs between the `series` and `end series` markers and hands
 * every other URL to the thread pool; `download_image_series`, which submits a
 * flushed series with each element pointing at its predecessor; and the `url_count`
 * total given to the progress bar. The thread pool only runs what is submitted, so
 * a submission is modelled as a `Dispatch` record appended to `futures`.
 */
module BulkFetch {
  import opened Wrappers
  import opened Strings
  import opened Records

  const SeriesStart: string := "series"
  const SeriesEnd: string := "end series"

  predicate IsMarker(url: string) {
    url == SeriesStart || url == SeriesEnd
  }

  /** One `executor.submit(download_image, group, url, parent=parent)`. */
  datatype Dispatch = Dispatch(group: string, url: string, parent: Option<Entry>)

  // ---------------------------------------------------------------- download_image_series

  /** The parent of the `i`-th element of a series: the element before it, if any. */
  function ParentAt(series: seq<Entry>, i: nat): Option<Entry>
    requires i < |series|
  {
    if i > 0 then Some(series[i - 1]) else None
  }

  /** The submissions for a flushed series, one per element in order; each element
      after the first carries the element before it as its parent. */
  function SeriesDispatches(series: seq<Entry>): (ds: seq<Dispatch>)
    ensures |ds| == |series|
    ensures forall i :: 0 <= i < |series| ==>
              ds[i] == Dispatch(series[i].group, series[i].url, ParentAt(series, i))
    decreases |series|
  {
    if series == [] then []
    else
      var n := |series| - 1;
      var init := SeriesDispatches(series[..n]);
      var ds := init + [Dispatch(series[n].group, series[n].url, ParentAt(series, n))];
      assert forall i :: 0 <= i < n ==> ds[i] == init[i];
      assert forall i :: 0 <= i < n ==> ParentAt(series[..n], i) == ParentAt(series, i);
      ds
  }

  /** `download_image_series(series)`: appends the series' submissions to `futures`. */
  method DispatchSeries(series: seq<Entry>, futures: seq<Dispatch>) returns (r: seq<Dispatch>)
    ensures r == futures + SeriesDispatches(series)
  {
    r := futures;
    for i := 0 to |series|
      invariant r == futures + SeriesDispatches(series[..i])
    {
      r := r + [Dispatch(series[i].group, series[i].url, ParentAt(series, i))];
      assert series[..i + 1][..i] == series[..i];
    }
    assert series[..|series|] == series;
  }

  // ---------------------------------------------------------------- the partition loop

  /**
   * The loop's variables: `downloaded_urls`, `series_of_urls`, `add_to_series` and
   * the submissions made so far.
   */
  datatype PState = PState(seen: set<string>, series: seq<Entry>, inSeries: bool, out: seq<Dispatch>)

  const Initial: PState := PState({}, [], false, [])

  /** One iteration of the loop on the pair `e`: only the stripped URL can join the
      seen set, submissions are only ever appended, and a marker not seen before sets
      the series flag (the branches are spelled out in `StepCases`). */
  function Step(st: PState, e: Entry): (r: PState)
  {
    var url := Strip(e.url);
    if url in st.seen then st
    else if url == SeriesStart then st.(inSeries := true)
    else if url == SeriesEnd then
      if st.series != [] then st.(out := st.out + SeriesDispatches(st.series), series := [], inSeries := false)
      else st.(inSeries := false)
    else if st.inSeries then st.(series := st.series + [Entry(e.group, url)], seen := st.seen + {url})
    else st.(out := st.out + [Dispatch(e.group, url, None)], seen := st.seen + {url})
  }

  /** The loop's variables after the pairs `urls`. */
  function Run(urls: seq<Entry>): PState
    decreases |urls|
  {
    if urls == [] then Initial else Step(Run(urls[..|urls| - 1]), urls[|urls| - 1])
  }

  /** What the loop submits for the input `urls`, in submission order. */
  function Partition(urls: seq<Entry>): seq<Dispatch> {
    Run(urls).out
  }

  lemma RunSnoc(xs: seq<Entry>, e: Entry)
    ensures Run(xs + [e]) == Step(Run(xs), e)
  {
    assert (xs + [e])[..|xs|] == xs;
  }

  /** The loop of `get_image_bulk` over `urls`, with the thread pool's submissions
      collected in `futures`: no URL is submitted twice, each submission carries the
      group of the URL's first occurrence, and a submission with a parent follows
      that parent directly. */
  method PartitionUrls(urls: seq<Entry>) returns (futures: seq<Dispatch>)
    ensures futures == Partition(urls)
    ensures Distinct(DispatchedUrls(futures))
    ensures forall k :: 0 <= k < |futures| ==> IsFirst(urls, futures[k].group, futures[k].url)
    ensures ParentChain(futures)
  {
    var downloaded: set<string> := {};
    var series: seq<Entry> := [];
    var addToSeries := false;
    futures := [];
    for i := 0 to |urls|
      invariant PState(downloaded, series, addToSeries, futures) == Run(urls[..i])
    {
      RunSnoc(urls[..i], urls[i]);
      assert urls[..i + 1] == urls[..i] + [urls[i]];
      var group, url := urls[i].group, Strip(urls[i].url);
      if url in downloaded {
        continue;
      }
      if url == SeriesStart {
        addToSeries := true;
      } else if url == SeriesEnd {
        if series != [] {
          futures := DispatchSeries(series, futures);
          series := [];
        }
        addToSeries := false;
      } else if addToSeries {
        series := series + [Entry(group, url)];
        downloaded := downloaded + {url};
      } else {
        futures := futures + [Dispatch(group, url, None)];
        downloaded := downloaded + {url};
      }
    }
    assert urls[..|urls|] == urls;
    PartitionProperties(urls);
  }

  // ---------------------------------------------------------------- what the loop keeps

  function DispatchedUrls(ds: seq<Dispatch>): (us: seq<string>)
    ensures |us| == |ds| && forall i :: 0 <= i < |ds| ==> us[i] == ds[i].url
  {
    seq(|ds|, i requires 0 <= i < |ds| => ds[i].url)
  }

  /** The URLs submitted or buffered so far, in that order. */
  function Pending(st: PState): seq<string> {
    DispatchedUrls(st.out) + DispatchedUrls(SeriesDispatches(st.series))
  }

  predicate Distinct(s: seq<string>) {
    forall i, j :: 0 <= i < j < |s| ==> s[i] != s[j]
  }

  /** Some pair of `urls` has the stripped URL `u`. */
  ghost predicate Occurs(urls: seq<Entry>, u: string) {
    exists j :: 0 <= j < |urls| && Strip(urls[j].url) == u
  }

  /** The first pair of `urls` whose stripped URL is `u` has the group `g`. */
  ghost predicate IsFirst(urls: seq<Entry>, g: string, u: string) {
    exists j :: 0 <= j < |urls| && Strip(urls[j].url) == u && urls[j].group == g && !Occurs(urls[..j], u)
  }

  /** A submission with a parent comes right after the submission of that parent. */
  predicate ParentChain(ds: seq<Dispatch>) {
    forall k :: 0 <= k < |ds| && ds[k].parent.Some? ==>
      0 < k && ds[k].parent.value == Entry(ds[k - 1].group, ds[k - 1].url)
  }

  /** The seen set holds exactly the non-marker URLs read so far. */
  ghost predicate SeenInv(urls: seq<Entry>, st: PState) {
    forall u :: u in st.seen <==> Occurs(urls, u) && !IsMarker(u)
  }

  /** The seen set is what was submitted or buffered, each URL once, and only an open
      series has a buffer. */
  ghost predicate PendingInv(st: PState) {
    && (forall u :: u in st.seen <==> u in Pending(st))
    && Distinct(Pending(st))
    && (!st.inSeries ==> st.series == [])
  }

  /** Whatever is submitted or buffered comes from the first occurrence of its URL. */
  ghost predicate FirstInv(urls: seq<Entry>, st: PState) {
    && (forall k :: 0 <= k < |st.out| ==> IsFirst(urls, st.out[k].group, st.out[k].url))
    && (forall k :: 0 <= k < |st.series| ==> IsFirst(urls, st.series[k].group, st.series[k].url))
  }

  /** What holds of the loop's variables after the pairs `urls`. */
  ghost predicate Inv(urls: seq<Entry>, st: PState) {
    SeenInv(urls, st) && PendingInv(st) && ParentChain(st.out) && FirstInv(urls, st)
  }

  /** The five branches of the loop body. */
  lemma StepCases(st: PState, e: Entry)
    ensures var u := Strip(e.url); var st' := Step(st, e);
      && (u in st.seen ==> st' == st)
      && (u !in st.seen && u == SeriesStart ==> st' == st.(inSeries := true))
      && (u !in st.seen && u == SeriesEnd ==>
            st' == st.(out := st.out + SeriesDispatches(st.series), series := [], inSeries := false))
      && (u !in st.seen && !IsMarker(u) && st.inSeries ==>
            st' == st.(series := st.series + [Entry(e.group, u)], seen := st.seen + {u}))
      && (u !in st.seen && !IsMarker(u) && !st.inSeries ==>
            st' == st.(out := st.out + [Dispatch(e.group, u, None)], seen := st.seen + {u}))
  {
    assert SeriesDispatches([]) == [];
  }

  lemma OccursSnoc(xs: seq<Entry>, e: Entry, u: string)
    ensures Occurs(xs + [e], u) <==> Occurs(xs, u) || Strip(e.url) == u
  {
    var ys := xs + [e];
    if Occurs(ys, u) {
      var j :| 0 <= j < |ys| && Strip(ys[j].url) == u;
      if j < |xs| { assert Strip(xs[j].url) == u; }
    }
    if Occurs(xs, u) {
      var j :| 0 <= j < |xs| && Strip(xs[j].url) == u;
      assert Strip(ys[j].url) == u;
    }
    if Strip(e.url) == u {
      assert Strip(ys[|xs|].url) == u;
    }
  }

  lemma IsFirstSnoc(xs: seq<Entry>, e: Entry, g: string, u: string)
    requires IsFirst(xs, g, u)
    ensures IsFirst(xs + [e], g, u)
  {
    var j :| 0 <= j < |xs| && Strip(xs[j].url) == u && xs[j].group == g && !Occurs(xs[..j], u);
    assert (xs + [e])[..j] == xs[..j];
    assert (xs + [e])[j] == xs[j];
  }

  lemma IsFirstNew(xs: seq<Entry>, e: Entry)
    requires !Occurs(xs, Strip(e.url))
    ensures IsFirst(xs + [e], e.group, Strip(e.url))
  {
    assert (xs + [e])[..|xs|] == xs;
    assert (xs + [e])[|xs|] == e;
  }

  lemma DistinctSnoc(s: seq<string>, x: string)
    requires Distinct(s) && x !in s
    ensures Distinct(s + [x])
  {
  }

  lemma FlushKeepsPending(out: seq<Dispatch>, series: seq<Entry>)
    ensures DispatchedUrls(out + SeriesDispatches(series)) == DispatchedUrls(out) + DispatchedUrls(SeriesDispatches(series))
  {
    var ds := out + SeriesDispatches(series);
    var l, r := DispatchedUrls(ds), DispatchedUrls(out) + DispatchedUrls(SeriesDispatches(series));
    assert |l| == |r|;
    forall i | 0 <= i < |l| ensures l[i] == r[i] {
      if i < |out| {
        assert ds[i] == out[i];
      } else {
        assert ds[i] == SeriesDispatches(series)[i - |out|];
      }
    }
  }

  lemma SeriesUrlsSnoc(series: seq<Entry>, x: Entry)
    ensures DispatchedUrls(SeriesDispatches(series + [x])) == DispatchedUrls(SeriesDispatches(series)) + [x.url]
  {
    var l, r := DispatchedUrls(SeriesDispatches(series + [x])), DispatchedUrls(SeriesDispatches(series)) + [x.url];
    assert |l| == |r|;
    forall i | 0 <= i < |l| ensures l[i] == r[i] {
      if i < |series| {
        assert (series + [x])[i] == series[i];
      }
    }
  }

  lemma FlushKeepsChain(out: seq<Dispatch>, series: seq<Entry>)
    requires ParentChain(out)
    ensures ParentChain(out + SeriesDispatches(series))
  {
    var ds, sd := out + SeriesDispatches(series), SeriesDispatches(series);
    forall k | 0 <= k < |ds| && ds[k].parent.Some?
      ensures 0 < k && ds[k].parent.value == Entry(ds[k - 1].group, ds[k - 1].url)
    {
      if k < |out| {
        assert ds[k] == out[k];
        if 0 < k { assert ds[k - 1] == out[k - 1]; }
      } else {
        var i := k - |out|;
        assert ds[k] == sd[i];
        if i > 0 {
          assert ds[k - 1] == sd[i - 1];
        }
      }
    }
  }

  lemma SeenStep(xs: seq<Entry>, st: PState, e: Entry)
    requires SeenInv(xs, st)
    ensures SeenInv(xs + [e], Step(st, e))
  {
    StepCases(st, e);
    forall v ensures Occurs(xs + [e], v) <==> Occurs(xs, v) || Strip(e.url) == v {
      OccursSnoc(xs, e, v);
    }
  }

  lemma PendingStep(st: PState, e: Entry)
    requires PendingInv(st)
    ensures PendingInv(Step(st, e))
  {
    StepCases(st, e);
    var u, st' := Strip(e.url), Step(st, e);
    if u !in st.seen {
      if u == SeriesEnd {
        FlushKeepsPending(st.out, st.series);
        assert Pending(st') == Pending(st);
      } else if !IsMarker(u) && st.inSeries {
        SeriesUrlsSnoc(st.series, Entry(e.group, u));
        assert Pending(st') == Pending(st) + [u];
        DistinctSnoc(Pending(st), u);
      } else if !IsMarker(u) {
        assert SeriesDispatches(st.series) == [];
        assert DispatchedUrls(st'.out) == DispatchedUrls(st.out) + [u];
        assert Pending(st') == Pending(st) + [u];
        DistinctSnoc(Pending(st), u);
      }
    }
  }

  lemma ChainStep(st: PState, e: Entry)
    requires ParentChain(st.out)
    ensures ParentChain(Step(st, e).out)
  {
    StepCases(st, e);
    var u := Strip(e.url);
    if u !in st.seen && u == SeriesEnd {
      FlushKeepsChain(st.out, st.series);
    }
  }

  lemma FirstKept(xs: seq<Entry>, st: PState, e: Entry)
    requires FirstInv(xs, st)
    ensures FirstInv(xs + [e], st)
  {
    forall k | 0 <= k < |st.out| ensures IsFirst(xs + [e], st.out[k].group, st.out[k].url) {
      IsFirstSnoc(xs, e, st.out[k].group, st.out[k].url);
    }
    forall k | 0 <= k < |st.series| ensures IsFirst(xs + [e], st.series[k].group, st.series[k].url) {
      IsFirstSnoc(xs, e, st.series[k].group, st.series[k].url);
    }
  }

  lemma FirstFlush(ys: seq<Entry>, st: PState)
    requires FirstInv(ys, st)
    ensures FirstInv(ys, st.(out := st.out + SeriesDispatches(st.series), series := [], inSeries := false))
  {
    var out, sd := st.out + SeriesDispatches(st.series), SeriesDispatches(st.series);
    forall k | 0 <= k < |out| ensures IsFirst(ys, out[k].group, out[k].url) {
      if k < |st.out| {
        assert out[k] == st.out[k];
      } else {
        assert out[k] == sd[k - |st.out|];
      }
    }
  }

  lemma FirstStep(xs: seq<Entry>, st: PState, e: Entry)
    requires SeenInv(xs, st) && FirstInv(xs, st)
    ensures FirstInv(xs + [e], Step(st, e))
  {
    StepCases(st, e);
    var u, ys := Strip(e.url), xs + [e];
    FirstKept(xs, st, e);
    if u !in st.seen && u == SeriesEnd {
      FirstFlush(ys, st);
    } else if u !in st.seen && !IsMarker(u) {
      assert !Occurs(xs, u);
      IsFirstNew(xs, e);
      var st' := Step(st, e);
      if st.inSeries {
        assert forall k :: 0 <= k < |st.series| ==> st'.series[k] == st.series[k];
      } else {
        assert forall k :: 0 <= k < |st.out| ==> st'.out[k] == st.out[k];
      }
    }
  }

  lemma {:induction false} RunInv(urls: seq<Entry>)
    ensures Inv(urls, Run(urls))
    decreases |urls|
  {
    if urls != [] {
      var n := |urls| - 1;
      var xs, e := urls[..n], urls[n];
      RunInv(xs);
      assert urls == xs + [e];
      SeenStep(xs, Run(xs), e);
      PendingStep(Run(xs), e);
      ChainStep(Run(xs), e);
      FirstStep(xs, Run(xs), e);
    }
  }

  // ---------------------------------------------------------------- properties of the loop

  /** Once a URL is submitted or buffered, every later occurrence is skipped: no URL is
      submitted twice and none is a marker; each submission carries the group of the
      URL's first occurrence; a submission with a parent directly follows it. */
  lemma PartitionProperties(urls: seq<Entry>)
    ensures Distinct(DispatchedUrls(Partition(urls)))
    ensures forall k :: 0 <= k < |Partition(urls)| ==> !IsMarker(Partition(urls)[k].url)
    ensures forall k :: 0 <= k < |Partition(urls)| ==>
              IsFirst(urls, Partition(urls)[k].group, Partition(urls)[k].url)
    ensures ParentChain(Partition(urls))
  {
    RunInv(urls);
    var st := Run(urls);
    var ds := DispatchedUrls(st.out);
    forall i, j | 0 <= i < j < |ds| ensures ds[i] != ds[j] {
      assert Pending(st)[i] == ds[i] && Pending(st)[j] == ds[j];
    }
    forall k | 0 <= k < |st.out| ensures !IsMarker(st.out[k].url) {
      assert Pending(st)[k] == st.out[k].url;
    }
  }

  /** The series is open after `urls` exactly when some `series` marker has no
      `end series` after it. */
  ghost predicate OpenAtEnd(urls: seq<Entry>) {
    exists j :: 0 <= j < |urls| && Strip(urls[j].url) == SeriesStart
      && forall k :: j < k < |urls| ==> Strip(urls[k].url) != SeriesEnd
  }

  lemma OpenAtEndSnoc(xs: seq<Entry>, e: Entry)
    ensures Strip(e.url) == SeriesStart ==> OpenAtEnd(xs + [e])
    ensures Strip(e.url) == SeriesEnd ==> !OpenAtEnd(xs + [e])
    ensures !IsMarker(Strip(e.url)) ==> (OpenAtEnd(xs + [e]) <==> OpenAtEnd(xs))
  {
    var ys := xs + [e];
    if Strip(e.url) == SeriesStart {
      assert Strip(ys[|xs|].url) == SeriesStart;
    }
    if Strip(e.url) == SeriesEnd {
      forall j | 0 <= j < |ys| && Strip(ys[j].url) == SeriesStart
        ensures exists k :: j < k < |ys| && Strip(ys[k].url) == SeriesEnd
      {
        assert ys[|xs|] == e;
      }
    }
    if !IsMarker(Strip(e.url)) {
      forall j | 0 <= j < |xs|
        ensures (Strip(ys[j].url) == SeriesStart && forall k :: j < k < |ys| ==> Strip(ys[k].url) != SeriesEnd)
            <==> (Strip(xs[j].url) == SeriesStart && forall k :: j < k < |xs| ==> Strip(xs[k].url) != SeriesEnd)
      {
        assert ys[|xs|] == e;
        assert forall k :: j <= k < |xs| ==> ys[k] == xs[k];
      }
      assert Strip(ys[|xs|].url) != SeriesStart;
    }
  }

  /** Markers are never added to the set of seen URLs, so every `series` opens a
      series and every `end series` closes one. */
  lemma {:induction false} SeriesOpenIff(urls: seq<Entry>)
    ensures Run(urls).inSeries <==> OpenAtEnd(urls)
    decreases |urls|
  {
    if urls != [] {
      var n := |urls| - 1;
      var xs, e := urls[..n], urls[n];
      assert urls == xs + [e];
      SeriesOpenIff(xs);
      RunInv(xs);
      OpenAtEndSnoc(xs, e);
    }
  }

  /** A marker always takes effect: `series` opens a series, and `end series`
      submits exactly the buffered series (nothing when the buffer is empty) and
      closes it. */
  lemma MarkersTakeEffect(xs: seq<Entry>, e: Entry)
    ensures Strip(e.url) == SeriesStart ==>
              Run(xs + [e]).inSeries && Partition(xs + [e]) == Partition(xs)
    ensures Strip(e.url) == SeriesEnd ==>
              !Run(xs + [e]).inSeries && Run(xs + [e]).series == []
              && Partition(xs + [e]) == Partition(xs) + SeriesDispatches(Run(xs).series)
  {
    RunInv(xs);
    RunSnoc(xs, e);
  }

  /** With no series left open, every non-marker URL of the input is submitted, and
      (by `PartitionProperties`) exactly once. */
  lemma PartitionComplete(urls: seq<Entry>)
    requires !OpenAtEnd(urls)
    ensures forall u :: u in DispatchedUrls(Partition(urls)) <==> Occurs(urls, u) && !IsMarker(u)
  {
    SeriesOpenIff(urls);
    RunInv(urls);
    var st := Run(urls);
    assert DispatchedUrls(SeriesDispatches(st.series)) == [];
    assert Pending(st) == DispatchedUrls(st.out);
  }

  lemma OpenStep(st: PState, e: Entry)
    requires st.inSeries && Strip(e.url) != SeriesEnd
    ensures Step(st, e).inSeries && Step(st, e).out == st.out
  {
    StepCases(st, e);
  }

  lemma {:induction false} OpenSeriesStaysOpen(xs: seq<Entry>, rest: seq<Entry>)
    requires Run(xs).inSeries
    requires forall k :: 0 <= k < |rest| ==> Strip(rest[k].url) != SeriesEnd
    ensures Run(xs + rest).inSeries && Partition(xs + rest) == Partition(xs)
    decreases |rest|
  {
    if rest == [] {
      assert xs + rest == xs;
    } else {
      var n := |rest| - 1;
      var init := rest[..n];
      assert forall k :: 0 <= k < n ==> init[k] == rest[k];
      OpenSeriesStaysOpen(xs, init);
      assert xs + rest == (xs + init) + [rest[n]];
      RunSnoc(xs + init, rest[n]);
      OpenStep(Run(xs + init), rest[n]);
    }
  }

  /** A series still open when the input ends is never submitted: there is no flush
      after the loop. */
  lemma UnterminatedSeriesDropped(xs: seq<Entry>, g: string, rest: seq<Entry>)
    requires forall k :: 0 <= k < |rest| ==> Strip(rest[k].url) != SeriesEnd
    ensures Partition(xs + [Entry(g, SeriesStart)] + rest) == Partition(xs)
  {
    StripUnchanged(SeriesStart);
    MarkersTakeEffect(xs, Entry(g, SeriesStart));
    OpenSeriesStaysOpen(xs + [Entry(g, SeriesStart)], rest);
  }

  /** The entries an open series buffers from `block`, in input order: each stripped,
      non-marker URL not seen before, with its group. */
  function Buffered(block: seq<Entry>, seen: set<string>): (r: seq<Entry>)
    ensures |r| <= |block|
    ensures forall k :: 0 <= k < |r| ==> r[k].url !in seen && !IsMarker(r[k].url)
    decreases |block|
  {
    if block == [] then []
    else
      var u := Strip(block[0].url);
      if u in seen || IsMarker(u) then Buffered(block[1..], seen)
      else [Entry(block[0].group, u)] + Buffered(block[1..], seen + {u})
  }

  /** The loop's variables after the pairs `block`, starting from `st`. */
  function RunFrom(st: PState, block: seq<Entry>): PState
    decreases |block|
  {
    if block == [] then st else RunFrom(Step(st, block[0]), block[1..])
  }

  lemma {:induction false} RunAppend(xs: seq<Entry>, ys: seq<Entry>)
    ensures Run(xs + ys) == RunFrom(Run(xs), ys)
    decreases |ys|
  {
    if ys == [] {
      assert xs + ys == xs;
    } else {
      assert xs + ys == (xs + [ys[0]]) + ys[1..];
      RunAppend(xs + [ys[0]], ys[1..]);
      RunSnoc(xs, ys[0]);
    }
  }

  /** In an open series, every pair up to the next `end series` extends the buffer in
      input order, by the entries `Buffered` picks, and submits nothing. */
  lemma {:induction false} BufferGrows(st: PState, block: seq<Entry>)
    requires st.inSeries && SeriesStart !in st.seen
    requires forall k :: 0 <= k < |block| ==> Strip(block[k].url) != SeriesEnd
    ensures RunFrom(st, block).series == st.series + Buffered(block, st.seen)
    ensures RunFrom(st, block).inSeries && RunFrom(st, block).out == st.out
    decreases |block|
  {
    if block == [] {
      assert st.series + [] == st.series;
    } else {
      var e, rest := block[0], block[1..];
      assert forall k :: 0 <= k < |rest| ==> rest[k] == block[k + 1];
      BufferStep(st, e);
      var st' := Step(st, e);
      var u := Strip(e.url);
      BufferGrows(st', rest);
      if u !in st.seen && !IsMarker(u) {
        assert Buffered(block, st.seen) == [Entry(e.group, u)] + Buffered(rest, st.seen + {u});
      } else {
        assert Buffered(block, st.seen) == Buffered(rest, st.seen);
      }
    }
  }

  /** One pair inside an open series. */
  lemma BufferStep(st: PState, e: Entry)
    requires st.inSeries && Strip(e.url) != SeriesEnd && SeriesStart !in st.seen
    ensures var st', u := Step(st, e), Strip(e.url);
      && st'.inSeries && st'.out == st.out
      && (u in st.seen || IsMarker(u) ==> st'.series == st.series && st'.seen == st.seen)
      && (u !in st.seen && !IsMarker(u) ==>
            st'.series == st.series + [Entry(e.group, u)] && st'.seen == st.seen + {u})
  {
  }

  /** The markers never join the seen set. */
  lemma MarkersNeverSeen(urls: seq<Entry>)
    ensures SeriesStart !in Run(urls).seen && SeriesEnd !in Run(urls).seen
  {
    RunInv(urls);
  }

  /** Outside a series the buffer is empty. */
  lemma NoBufferOutside(urls: seq<Entry>)
    ensures !Run(urls).inSeries ==> Run(urls).series == []
  {
    RunInv(urls);
  }

  /** A whole `series ... end series` block, opened outside a series and without an
      `end series` inside, is submitted at its end as the chain of its buffered
      entries in input order: each one after the first names the one before it as
      its parent. */
  lemma SeriesBlockInOrder(xs: seq<Entry>, open: Entry, block: seq<Entry>, close: Entry)
    requires !Run(xs).inSeries
    requires Strip(open.url) == SeriesStart && Strip(close.url) == SeriesEnd
    requires forall k :: 0 <= k < |block| ==> Strip(block[k].url) != SeriesEnd
    ensures Partition(xs + [open] + block + [close])
            == Partition(xs) + SeriesDispatches(Buffered(block, Run(xs).seen))
  {
    var start := xs + [open];
    var mid := start + block;
    var st := Run(start);
    OpenSeries(xs, open);
    var st' := RunFrom(st, block);
    assert Run(mid) == st' by { RunAppend(start, block); }
    assert st'.series == Buffered(block, Run(xs).seen) && st'.out == Run(xs).out by {
      BufferGrows(st, block);
    }
    CloseSeries(mid, close);
  }

  /** A `series` marker outside a series opens an empty buffer. */
  lemma OpenSeries(xs: seq<Entry>, open: Entry)
    requires !Run(xs).inSeries && Strip(open.url) == SeriesStart
    ensures var st := Run(xs + [open]);
      st.inSeries && st.series == [] && st.seen == Run(xs).seen && st.out == Run(xs).out
      && SeriesStart !in st.seen
  {
    NoBufferOutside(xs);
    MarkersNeverSeen(xs);
    RunSnoc(xs, open);
  }

  /** An `end series` marker submits the buffer. */
  lemma CloseSeries(xs: seq<Entry>, close: Entry)
    requires Strip(close.url) == SeriesEnd
    ensures Partition(xs + [close]) == Partition(xs) + SeriesDispatches(Run(xs).series)
  {
    MarkersNeverSeen(xs);
    RunSnoc(xs, close);
  }

  // ---------------------------------------------------------------- url_count

  /** `url_count`: the raw entries whose URL starts with `http`, counted before
      stripping and before duplicates are dropped. */
  function UrlCount(urls: seq<Entry>): (n: nat)
    ensures n <= |urls|
    ensures n == |urls| <==> forall k :: 0 <= k < |urls| ==> StartsWith(urls[k].url, "http")
    decreases |urls|
  {
    if urls == [] then 0
    else
      var n := |urls| - 1;
      UrlCount(urls[..n]) + (if StartsWith(urls[n].url, "http") then 1 else 0)
  }

  /** Input without surrounding whitespace, without markers and without repeats is
      submitted pair by pair, none with a parent. */
  lemma {:induction false} PlainInput(urls: seq<Entry>)
    requires forall k :: 0 <= k < |urls| ==> Strip(urls[k].url) == urls[k].url && !IsMarker(urls[k].url)
    requires forall i, j :: 0 <= i < j < |urls| ==> urls[i].url != urls[j].url
    ensures |Partition(urls)| == |urls|
    ensures forall k :: 0 <= k < |urls| ==> Partition(urls)[k] == Dispatch(urls[k].group, urls[k].url, None)
    ensures !Run(urls).inSeries
    decreases |urls|
  {
    if urls != [] {
      var n := |urls| - 1;
      var xs, e := urls[..n], urls[n];
      PlainInput(xs);
      assert urls == xs + [e];
      forall j | 0 <= j < |xs| ensures Strip(xs[j].url) != e.url {
        assert xs[j] == urls[j];
      }
      NotSeen(xs, e.url);
      RunSnoc(xs, e);
      PlainStep(Run(xs), e);
    }
  }

  /** A URL that does not occur in the input is not in the seen set. */
  lemma NotSeen(urls: seq<Entry>, u: string)
    requires forall j :: 0 <= j < |urls| ==> Strip(urls[j].url) != u
    ensures u !in Run(urls).seen
  {
    RunInv(urls);
  }

  /** An unseen, stripped, non-marker URL outside a series is submitted on its own. */
  lemma PlainStep(st: PState, e: Entry)
    requires Strip(e.url) == e.url && !IsMarker(e.url) && e.url !in st.seen && !st.inSeries
    ensures Step(st, e).out == st.out + [Dispatch(e.group, e.url, None)] && !Step(st, e).inSeries
  {
  }

  /** On plain input that is all `http` links, `url_count` is the number of
      submissions, so the progress bar ends full. */
  lemma UrlCountOfPlainInput(urls: seq<Entry>)
    requires forall k :: 0 <= k < |urls| ==> Strip(urls[k].url) == urls[k].url && !IsMarker(urls[k].url)
    requires forall i, j :: 0 <= i < j < |urls| ==> urls[i].url != urls[j].url
    requires forall k :: 0 <= k < |urls| ==> StartsWith(urls[k].url, "http")
    ensures UrlCount(urls) == |Partition(urls)|
  {
    PlainInput(urls);
  }

  /** A repeated link is counted twice by `url_count` but submitted once. */
  lemma UrlCountCountsRepeats(e: Entry)
    requires Strip(e.url) == e.url && StartsWith(e.url, "http")
    ensures UrlCount([e, e]) == 2 && |Partition([e, e])| == 1
  {
    assert !IsMarker(e.url) by {
      assert SeriesStart[0] != 'h' && SeriesEnd[0] != 'h';
    }
    RepeatSubmittedOnce(e);
  }

  /** A plain link given twice is submitted once. */
  lemma RepeatSubmittedOnce(e: Entry)
    requires Strip(e.url) == e.url && !IsMarker(e.url)
    ensures Partition([e, e]) == [Dispatch(e.group, e.url, None)]
  {
    assert Run([e]) == Step(Initial, e) by { assert [e][..0] == []; }
    PlainStep(Initial, e);
    assert [e] + [e] == [e, e];
    RunSnoc([e], e);
  }
}
