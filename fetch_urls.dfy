/**
 * `fetch_image_urls`: the `(group name, original link)` pairs of the stored images,
 * all of them or only those whose file is missing from the group directories. The
 * directory listings are given as a function from group name to file names.
 */
module FetchUrls {
  import opened Wrappers
  import opened Persistence

  /** The rows of the query, narrowed to one group when a group is given. */
  function Query(rows: seq<ImageRow>, group: Option<string>): (q: seq<ImageRow>)
    ensures |q| <= |rows|
    ensures forall r :: r in q <==> r in rows && (group.Some? ==> r.group == group.value)
  {
    if rows == [] then []
    else
      var rest := Query(rows[1..], group);
      assert forall r :: r in rows <==> r == rows[0] || r in rows[1..];
      if group.None? || rows[0].group == group.value then [rows[0]] + rest else rest
  }

  /** `(img.group.name, img.original_link)` for each row, in order. */
  function Pairs(q: seq<ImageRow>): (ps: seq<(string, string)>)
    ensures |ps| == |q| && forall k :: 0 <= k < |q| ==> ps[k] == (q[k].group, q[k].originalLink)
  {
    seq(|q|, k requires 0 <= k < |q| => (q[k].group, q[k].originalLink))
  }

  /** The pairs of the rows whose file name is not among `files`, in order. */
  function Missing(q: seq<ImageRow>, files: set<string>): (ps: seq<(string, string)>)
    ensures |ps| <= |q|
    ensures forall p :: p in ps <==>
              exists k :: 0 <= k < |q| && q[k].filename !in files && p == (q[k].group, q[k].originalLink)
  {
    if q == [] then []
    else
      var rest := Missing(q[1..], files);
      assert forall k :: 1 <= k < |q| ==> q[1..][k - 1] == q[k];
      if q[0].filename !in files then [(q[0].group, q[0].originalLink)] + rest else rest
  }

  /** With no file names to compare against, every row is reported missing. */
  lemma {:induction false} MissingOfNothing(q: seq<ImageRow>)
    ensures Missing(q, {}) == Pairs(q)
  {
    if q != [] {
      MissingOfNothing(q[1..]);
      assert Pairs(q) == [(q[0].group, q[0].originalLink)] + Pairs(q[1..]);
    }
  }

  /** The file names listed in any of the groups' directories. */
  ghost function Union(groups: seq<string>, listing: string -> set<string>): (files: set<string>)
    ensures forall f :: f in files <==> exists i :: 0 <= i < |groups| && f in listing(groups[i])
  {
    if groups == [] then {}
    else
      var rest := Union(groups[..|groups| - 1], listing);
      assert forall i :: 0 <= i < |groups| - 1 ==> groups[..|groups| - 1][i] == groups[i];
      rest + listing(groups[|groups| - 1])
  }

  /** The loop over `get_groups()` as written: it intersects an empty set with each
      listing, so it always ends with no file names. */
  method ListedFilesAsWritten(groups: seq<string>, listing: string -> set<string>) returns (files: set<string>)
    ensures files == {}
  {
    files := {};
    for i := 0 to |groups|
      invariant files == {}
    {
      files := files * listing(groups[i]);
    }
  }

  /** The loop over `get_groups()` as intended: the union of the listings. */
  method ListedFiles(groups: seq<string>, listing: string -> set<string>) returns (files: set<string>)
    ensures files == Union(groups, listing)
  {
    files := {};
    for i := 0 to |groups|
      invariant files == Union(groups[..i], listing)
    {
      assert groups[..i + 1][..i] == groups[..i];
      files := files + listing(groups[i]);
    }
    assert groups[..|groups|] == groups;
  }

  /**
   * `fetch_image_urls` as written: every pair when `all_images`, else the rows whose
   * file is missing from the group's directory, or, with no group, from the
   * intersection loop, which reports every stored image.
   */
  method FetchImageUrlsAsWritten(rows: seq<ImageRow>, group: Option<string>, allImages: bool,
                                 groups: seq<string>, listing: string -> set<string>)
      returns (r: seq<(string, string)>)
    ensures allImages ==> r == Pairs(Query(rows, group))
    ensures !allImages && group.Some? ==> r == Missing(Query(rows, group), listing(group.value))
    ensures !allImages && group.None? ==> r == Pairs(rows)
  {
    var query := Query(rows, group);
    if allImages {
      return Pairs(query);
    }
    var files: set<string>;
    if group.Some? {
      files := listing(group.value);
    } else {
      files := ListedFilesAsWritten(groups, listing);
      MissingOfNothing(query);
      assert query == rows by { QueryOfNone(rows); }
    }
    r := Missing(query, files);
  }

  /** Without a group the query keeps every row. */
  lemma {:induction false} QueryOfNone(rows: seq<ImageRow>)
    ensures Query(rows, None) == rows
  {
    if rows != [] {
      QueryOfNone(rows[1..]);
    }
  }

  /**
   * `fetch_image_urls` as intended: with no group, an image counts as present when its
   * file name is listed in some group's directory.
   */
  method FetchImageUrls(rows: seq<ImageRow>, group: Option<string>, allImages: bool,
                        groups: seq<string>, listing: string -> set<string>)
      returns (r: seq<(string, string)>)
    ensures allImages ==> r == Pairs(Query(rows, group))
    ensures !allImages && group.Some? ==> r == Missing(Query(rows, group), listing(group.value))
    ensures !allImages && group.None? ==> r == Missing(rows, Union(groups, listing))
    ensures !allImages ==> forall p :: p in r ==> p in Pairs(Query(rows, group))
  {
    var query := Query(rows, group);
    if allImages {
      return Pairs(query);
    }
    var files: set<string>;
    if group.Some? {
      files := listing(group.value);
    } else {
      files := ListedFiles(groups, listing);
      QueryOfNone(rows);
    }
    r := Missing(query, files);
    forall p | p in r ensures p in Pairs(query) {
      var k :| 0 <= k < |query| && query[k].filename !in files && p == (query[k].group, query[k].originalLink);
      assert Pairs(query)[k] == p;
    }
  }

  /** One stored image whose file is on disk: the loop as written still reports it
      missing, the intended union does not. */
  lemma IntersectionReportsPresentFile()
    ensures var rows := [ImageRow("g", "a.jpg", "http://x")];
            var listing := (g: string) => if g == "g" then {"a.jpg"} else {};
            Missing(rows, {}) == [("g", "http://x")] && Missing(rows, Union(["g"], listing)) == []
  {
    var rows := [ImageRow("g", "a.jpg", "http://x")];
    var listing := (g: string) => if g == "g" then {"a.jpg"} else {};
    assert "a.jpg" in Union(["g"], listing) by { assert "a.jpg" in listing(["g"][0]); }
    assert Missing(rows[1..], Union(["g"], listing)) == [];
  }
}
