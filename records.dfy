/**
 * Row normalisation: how `parse_pocket_csv` turns the rows of a Pocket CSV export
 * into article records.
 *
 * A row is what pandas hands the loop: a mapping from column name to cell. A cell is
 * `None` when pandas reports it as missing (NaN), otherwise the text
 * `str()` gives for it. Reading the file (pandas with its chain of encodings) is not
 * modelled: the file system is a map from path to the rows read from it, and a path
 * that is absent stands for every way `read_csv` can raise.
 */
module Records {
  import opened Wrappers
  import opened Text

  type Cell = Option<string>

  /**
   * The outcome of converting a `time_added` cell to a local date (`int(float(...))`
   * then `datetime.fromtimestamp`): the integer timestamp; `Caught` where a step
   * raises one of the `ValueError`, `TypeError` or `OSError` the loop catches (the
   * date is then left unset); `Escapes` where a step raises anything else, such as
   * the `OverflowError` of `int(float('inf'))`, which ends the whole parse.
   */
  datatype Stamp = Converted(epoch: int) | Caught | Escapes

  /** One data row of the export, with the outcome its `time_added` cell would convert to. */
  datatype Row = Row(cells: map<string, Cell>, stamp: Stamp)

  /** The rows `read_csv` yields for each readable CSV path. */
  type Tables = map<string, seq<Row>>

  /**
   * The normalised record. `addedDate` keeps the epoch from which Python builds its
   * `datetime`; `timeAdded` is the decimal text of that epoch.
   */
  datatype Article = Article(
    title: string,
    url: string,
    tags: seq<string>,
    addedDate: Option<int>,
    timeAdded: Option<string>,
    status: string)

  /** pandas' `row.get(column, default)`: the cell of a present column, the default for an absent one. */
  function Get(row: Row, column: string, default: Cell): (c: Cell)
    ensures column in row.cells ==> c == row.cells[column]
    ensures column !in row.cells ==> c == default
  {
    if column in row.cells then row.cells[column] else default
  }

  /** The only rows the parser drops: those whose `url` cell is missing (NaN). */
  predicate UrlMissing(row: Row) {
    Get(row, "url", Some("")).None?
  }

  /**
   * The row makes `parse_pocket_csv` raise: it has a url, so the loop reaches its
   * timestamp, and the timestamp cell converts with an exception the loop does not catch.
   */
  predicate RowRaises(row: Row) {
    !UrlMissing(row) && Get(row, "time_added", None).Some? && row.stamp.Escapes?
  }

  /** `parse_pocket_csv` returns for this path: the file reads, and no row of it raises. */
  predicate Readable(tables: Tables, path: string) {
    path in tables && forall k :: 0 <= k < |tables[path]| ==> !RowRaises(tables[path][k])
  }

  /** The title cell is missing or empty, so the url stands in for it. */
  predicate TitleBlank(row: Row) {
    Get(row, "title", Some("")) in {None, Some("")}
  }

  /** A tag as the parser emits it: non-empty, not padded with whitespace, no comma. */
  predicate WellFormedTag(t: string) {
    t != "" && Trimmed(t) && ',' !in t
  }

  /** The comprehension `[f.strip() for f in fragments if f.strip()]`. */
  function CleanFragments(fragments: seq<string>): (tags: seq<string>)
    ensures |tags| <= |fragments|
    ensures forall k :: 0 <= k < |tags| ==> tags[k] != "" && Trimmed(tags[k])
  {
    if fragments == [] then []
    else
      var t := Strip(fragments[0]);
      (if t != "" then [t] else []) + CleanFragments(fragments[1..])
  }

  /** One fragment as the comprehension keeps it: its strip, unless that is empty. */
  function NonBlankStrip(fragment: string): (t: Option<string>)
    ensures t.Some? ==> t.value == Strip(fragment) && t.value != ""
    ensures t.None? <==> Strip(fragment) == ""
  {
    var t := Strip(fragment);
    if t == "" then None else Some(t)
  }

  /** The comprehension is a filter-map of the fragments. */
  lemma {:induction false} CleanIsFilterMap(fragments: seq<string>)
    ensures CleanFragments(fragments) == FilterMap(fragments, NonBlankStrip)
  {
    if fragments != [] {
      var tail := fragments[1..];
      CleanIsFilterMap(tail);
      FilterMapConcat([fragments[0]], tail, NonBlankStrip);
      assert [fragments[0]] + tail == fragments;
      assert FilterMap([fragments[0]], NonBlankStrip) == FilterMap([], NonBlankStrip) +
        (if NonBlankStrip(fragments[0]).Some? then [NonBlankStrip(fragments[0]).value] else []);
    }
  }

  /**
   * Where each cleaned tag comes from: `idx` lists, in increasing order, the positions
   * of the fragments whose strip is non-empty, and the `k`-th tag is the strip of the
   * fragment at position `idx[k]`.
   */
  lemma CleanFragmentsOrigin(fragments: seq<string>) returns (idx: seq<nat>)
    ensures |idx| == |CleanFragments(fragments)|
    ensures forall k :: 0 <= k < |idx| ==>
              idx[k] < |fragments| && CleanFragments(fragments)[k] == Strip(fragments[idx[k]])
    ensures forall k, l :: 0 <= k < l < |idx| ==> idx[k] < idx[l]
    ensures forall j :: 0 <= j < |fragments| && Strip(fragments[j]) != "" ==> j in idx
  {
    CleanIsFilterMap(fragments);
    FilterMapOrigin(fragments, NonBlankStrip);
    idx := Kept(fragments, NonBlankStrip);
  }

  /** Cleaning comma-free fragments gives comma-free tags. */
  lemma {:induction false} CleanFragmentsCommaFree(fragments: seq<string>)
    requires forall k :: 0 <= k < |fragments| ==> ',' !in fragments[k]
    ensures forall k :: 0 <= k < |CleanFragments(fragments)| ==> ',' !in CleanFragments(fragments)[k]
  {
    if fragments != [] {
      StripAddsNothing(fragments[0], ',');
      CleanFragmentsCommaFree(fragments[1..]);
    }
  }

  /**
   * The tags of an article, from its `tags` cell: nothing for a missing, empty or
   * all-whitespace cell; the trimmed non-empty comma-separated fragments when the
   * trimmed cell holds a comma; otherwise the trimmed cell as the single tag.
   */
  function ParseTagField(field: Cell): (tags: seq<string>)
    ensures forall k :: 0 <= k < |tags| ==> WellFormedTag(tags[k])
    ensures field.None? || AllSpace(field.value) ==> tags == []
    ensures field.Some? && !AllSpace(field.value) && ',' !in field.value ==> tags == [Strip(field.value)]
    ensures field.Some? && ',' in Strip(field.value) ==> tags == CleanFragments(Split(Strip(field.value), ','))
  {
    if field.None? || field.value == "" then []
    else
      var t := Strip(field.value);
      assert ',' !in field.value ==> ',' !in t by {
        if ',' !in field.value { StripAddsNothing(field.value, ','); }
      }
      if t == "" then []
      else if ',' in t then
        CleanFragmentsCommaFree(Split(t, ','));
        CleanFragments(Split(t, ','))
      else [t]
  }

  /** The tags written back as one comma-separated cell. */
  function JoinTags(tags: seq<string>): string {
    if tags == [] then "" else Join(tags, ',')
  }

  lemma {:induction false} JoinEnds(parts: seq<string>, sep: char)
    requires |parts| >= 1 && parts[0] != "" && parts[|parts| - 1] != ""
    ensures Join(parts, sep) != []
    ensures Join(parts, sep)[0] == parts[0][0]
    ensures Join(parts, sep)[|Join(parts, sep)| - 1] == parts[|parts| - 1][|parts[|parts| - 1]| - 1]
    ensures |parts| >= 2 ==> sep in Join(parts, sep)
    decreases |parts|
  {
    if |parts| > 1 {
      var rest := parts[1..];
      if |rest| > 1 && rest[0] == "" {
        // the middle part may be empty: only the two ends matter
        JoinLast(rest, sep);
      } else {
        JoinEnds(rest, sep);
      }
      var j := Join(parts, sep);
      assert j == parts[0] + [sep] + Join(rest, sep);
      assert j[|parts[0]|] == sep;
    }
  }

  lemma {:induction false} JoinLast(parts: seq<string>, sep: char)
    requires |parts| >= 1 && parts[|parts| - 1] != ""
    ensures Join(parts, sep) != []
    ensures Join(parts, sep)[|Join(parts, sep)| - 1] == parts[|parts| - 1][|parts[|parts| - 1]| - 1]
    decreases |parts|
  {
    if |parts| > 1 {
      JoinLast(parts[1..], sep);
    }
  }

  lemma {:induction false} CleanKeepsWellFormed(tags: seq<string>)
    requires forall k :: 0 <= k < |tags| ==> WellFormedTag(tags[k])
    ensures CleanFragments(tags) == tags
  {
    if tags != [] {
      StripPadded([], tags[0], []);
      assert [] + tags[0] + [] == tags[0];
      CleanKeepsWellFormed(tags[1..]);
    }
  }

  /**
   * Tags survive being written as one comma-separated cell and parsed again: the
   * parser is a left inverse of joining with commas, on the tags it can emit.
   */
  lemma {:induction false} TagsRoundTrip(tags: seq<string>)
    requires forall k :: 0 <= k < |tags| ==> WellFormedTag(tags[k])
    ensures ParseTagField(Some(JoinTags(tags))) == tags
  {
    if |tags| == 1 {
      assert JoinTags(tags) == tags[0];
      SingleTagRoundTrip(tags[0]);
    } else if |tags| >= 2 {
      ManyTagsRoundTrip(tags);
    }
  }

  lemma {:induction false} SingleTagRoundTrip(t: string)
    requires WellFormedTag(t)
    ensures ParseTagField(Some(t)) == [t]
  {
    StripPadded([], t, []);
    assert [] + t + [] == t;
  }

  lemma {:induction false} ManyTagsRoundTrip(tags: seq<string>)
    requires |tags| >= 2
    requires forall k :: 0 <= k < |tags| ==> WellFormedTag(tags[k])
    ensures ParseTagField(Some(JoinTags(tags))) == tags
  {
    var s := Join(tags, ',');
    JoinEnds(tags, ',');
    StripPadded([], s, []);
    assert [] + s + [] == s;
    SplitJoin(tags, ',');
    CleanKeepsWellFormed(tags);
  }

  /** What every emitted article satisfies, whatever the row held. */
  predicate WellFormedArticle(a: Article) {
    && (a.title == "" ==> a.url == "")
    && (a.addedDate.Some? <==> a.timeAdded.Some?)
    && (a.addedDate.Some? ==> ParseInt(a.timeAdded.value) == a.addedDate)
    && forall k :: 0 <= k < |a.tags| ==> WellFormedTag(a.tags[k])
  }

  /** The loop body of `parse_pocket_csv`: the article one row yields, or `None` when the row is skipped. */
  function NormalizeRow(row: Row): (a: Option<Article>)
    ensures a.None? <==> UrlMissing(row)
    ensures a.Some? ==> WellFormedArticle(a.value)
    ensures a.Some? ==> a.value.url == Get(row, "url", Some("")).value
    ensures a.Some? && TitleBlank(row) ==> a.value.title == a.value.url
    ensures a.Some? && !TitleBlank(row) ==> a.value.title == Get(row, "title", Some("")).value
    ensures a.Some? ==> a.value.tags == ParseTagField(Get(row, "tags", None))
    ensures a.Some? && "status" !in row.cells ==> a.value.status == "unread"
    ensures a.Some? && "status" in row.cells && row.cells["status"].Some? ==>
              a.value.status == row.cells["status"].value
    ensures a.Some? && "status" in row.cells && row.cells["status"].None? ==> a.value.status == "nan"
    ensures a.Some? && (Get(row, "time_added", None).None? || !row.stamp.Converted?) ==>
              a.value.addedDate.None? && a.value.timeAdded.None?
    ensures a.Some? && Get(row, "time_added", None).Some? && row.stamp.Converted? ==>
              a.value.addedDate == Some(row.stamp.epoch) && a.value.timeAdded == Some(DecimalString(row.stamp.epoch))
  {
    var url := Get(row, "url", Some(""));
    if url.None? then None
    else
      var title := Get(row, "title", Some(""));
      var titleText := if title.None? || title.value == "" then url.value else title.value;
      var status := match Get(row, "status", Some("unread"))
        case None => "nan"
        case Some(s) => s;
      var stamped := Get(row, "time_added", None).Some? && row.stamp.Converted?;
      var addedDate := if stamped then Some(row.stamp.epoch) else None;
      var timeAdded := if stamped then Some(DecimalString(row.stamp.epoch)) else None;
      assert stamped ==> ParseInt(DecimalString(row.stamp.epoch)) == addedDate by {
        if stamped { DecimalRoundTrip(row.stamp.epoch); }
      }
      Some(Article(titleText, url.value, ParseTagField(Get(row, "tags", None)), addedDate, timeAdded, status))
  }

  /** The values `f` yields on the elements of `xs`, in order; elements on which it yields `None` are skipped. */
  function FilterMap<A, B>(xs: seq<A>, f: A -> Option<B>): (ys: seq<B>)
    ensures |ys| <= |xs|
  {
    if xs == [] then []
    else
      var last := f(xs[|xs| - 1]);
      FilterMap(xs[..|xs| - 1], f) + (if last.Some? then [last.value] else [])
  }

  /** `FilterMap` distributes over concatenation. */
  lemma {:induction false} FilterMapConcat<A, B>(xs: seq<A>, ys: seq<A>, f: A -> Option<B>)
    ensures FilterMap(xs + ys, f) == FilterMap(xs, f) + FilterMap(ys, f)
    decreases |ys|
  {
    if ys == [] {
      assert xs + ys == xs;
    } else {
      var init := ys[..|ys| - 1];
      assert (xs + ys)[..|xs + ys| - 1] == xs + init;
      FilterMapConcat(xs, init, f);
    }
  }

  /** The positions of `xs` on which `f` yields a value, in increasing order. */
  function Kept<A, B>(xs: seq<A>, f: A -> Option<B>): (idx: seq<nat>)
    ensures forall k :: 0 <= k < |idx| ==> idx[k] < |xs| && f(xs[idx[k]]).Some?
    ensures forall k, l :: 0 <= k < l < |idx| ==> idx[k] < idx[l]
    ensures forall j :: 0 <= j < |xs| && f(xs[j]).Some? ==> j in idx
  {
    if xs == [] then []
    else
      var last := |xs| - 1;
      var prev := Kept(xs[..last], f);
      assert forall j :: 0 <= j < last ==> xs[j] == xs[..last][j];
      if f(xs[last]).Some? then prev + [last] else prev
  }

  /** The `k`-th value of `FilterMap` is what `f` yields on the `k`-th kept position. */
  lemma {:induction false} FilterMapOrigin<A, B>(xs: seq<A>, f: A -> Option<B>)
    ensures |Kept(xs, f)| == |FilterMap(xs, f)|
    ensures forall k :: 0 <= k < |Kept(xs, f)| ==> f(xs[Kept(xs, f)[k]]) == Some(FilterMap(xs, f)[k])
  {
    if xs != [] {
      var last := |xs| - 1;
      var init := xs[..last];
      FilterMapOrigin(init, f);
      var prev := Kept(init, f);
      forall k | 0 <= k < |prev|
        ensures f(xs[prev[k]]) == Some(FilterMap(init, f)[k])
      {
        assert xs[prev[k]] == init[prev[k]];
      }
    }
  }

  /** The result of `parse_pocket_csv` on the rows of one file. */
  function ParseRows(rows: seq<Row>): seq<Article> {
    FilterMap(rows, NormalizeRow)
  }

  /**
   * `parse_pocket_csv`: read the file, then normalise its rows in file order; a row
   * whose timestamp raises past the loop's handler ends the parse with an exception.
   */
  method ParsePocketCsv(tables: Tables, path: string) returns (parsed: Option<seq<Article>>)
    ensures parsed.None? <==> !Readable(tables, path)
    ensures parsed.Some? ==> parsed.value == ParseRows(tables[path])
  {
    if path !in tables {
      return None;
    }
    var rows := tables[path];
    var articles: seq<Article> := [];
    var i := 0;
    while i < |rows|
      invariant 0 <= i <= |rows|
      invariant articles == ParseRows(rows[..i])
      invariant forall k :: 0 <= k < i ==> !RowRaises(rows[k])
    {
      if RowRaises(rows[i]) {
        return None;
      }
      var a := NormalizeRow(rows[i]);
      if a.Some? {
        articles := articles + [a.value];
      }
      assert rows[..i + 1][..i] == rows[..i];
      i := i + 1;
    }
    assert rows[..i] == rows;
    return Some(articles);
  }

  /** Parsing distributes over concatenation of row sequences. */
  lemma ParseRowsConcat(xs: seq<Row>, ys: seq<Row>)
    ensures ParseRows(xs + ys) == ParseRows(xs) + ParseRows(ys)
  {
    FilterMapConcat(xs, ys, NormalizeRow);
  }

  /**
   * Every article comes from one row with a url, in row order, and every row with a
   * url yields one: the `k`-th article is the normalisation of row `Kept(rows, NormalizeRow)[k]`.
   */
  lemma ParseRowsOrigin(rows: seq<Row>)
    ensures |Kept(rows, NormalizeRow)| == |ParseRows(rows)|
    ensures forall k :: 0 <= k < |ParseRows(rows)| ==>
              NormalizeRow(rows[Kept(rows, NormalizeRow)[k]]) == Some(ParseRows(rows)[k])
    ensures forall k, l :: 0 <= k < l < |ParseRows(rows)| ==> Kept(rows, NormalizeRow)[k] < Kept(rows, NormalizeRow)[l]
    ensures forall j :: 0 <= j < |rows| && !UrlMissing(rows[j]) ==> j in Kept(rows, NormalizeRow)
  {
    FilterMapOrigin(rows, NormalizeRow);
  }

  /** Every article the parser emits is well formed. */
  lemma ParseRowsWellFormed(rows: seq<Row>)
    ensures forall k :: 0 <= k < |ParseRows(rows)| ==> WellFormedArticle(ParseRows(rows)[k])
  {
    ParseRowsOrigin(rows);
  }

  /** How many rows have a missing url. */
  function UrlMissingCount(rows: seq<Row>): (n: nat)
    ensures n <= |rows|
  {
    if rows == [] then 0
    else UrlMissingCount(rows[..|rows| - 1]) + (if UrlMissing(rows[|rows| - 1]) then 1 else 0)
  }

  /** Parsing drops exactly the rows whose url is missing. */
  lemma {:induction false} ParseRowsCount(rows: seq<Row>)
    ensures |ParseRows(rows)| == |rows| - UrlMissingCount(rows)
  {
    if rows != [] {
      ParseRowsCount(rows[..|rows| - 1]);
    }
  }
}
