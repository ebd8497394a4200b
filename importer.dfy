/**
 * `PocketToNotionImporter`: the schema check, the per-article publish step with its
 * two counters, and the run that ties parsing and publishing together.
 *
 * The Notion service is not modelled. `databases.retrieve` becomes the key set it
 * returns (`None` where the call or the lookup of `properties` raises), and the
 * outcome of each `pages.create` call is an oracle. A ghost log records every
 * page-creation request with its outcome, so that contracts can say which pages a
 * run asked for.
 */
module Importer {
  import opened Wrappers
  import opened Text
  import opened Records
  import opened Payload

  /**
   * One `pages.create` request and whether the service accepted it. The request is
   * recorded by the article and the schema snapshot it was built from; the
   * properties it carries are `SentProperties(attempt, netloc, capitalize)`.
   */
  datatype Attempt = Attempt(article: Article, schema: set<string>, created: bool)

  /** The `properties` dictionary a logged request sent. */
  function SentProperties(attempt: Attempt, netloc: string -> string, capitalize: string -> string): Properties {
    BuildPayload(attempt.article, attempt.schema, netloc, capitalize)
  }

  /** How many of the requests the service accepted. */
  function Accepted(attempts: seq<Attempt>): (n: nat)
    ensures n <= |attempts|
  {
    if attempts == [] then 0
    else Accepted(attempts[..|attempts| - 1]) + (if attempts[|attempts| - 1].created then 1 else 0)
  }

  /** How many of the first `n` calls succeed, when call `k` of a run succeeds iff `created(k)`. */
  function CountCreated(created: nat -> bool, n: nat): (c: nat)
    ensures c <= n
  {
    if n == 0 then 0 else CountCreated(created, n - 1) + (if created(n - 1) then 1 else 0)
  }

  /** The requests a run issues for `articles`, in order, with their outcomes. */
  ghost function Publication(articles: seq<Article>, available: set<string>, created: nat -> bool): (r: seq<Attempt>)
    ensures |r| == |articles|
  {
    if articles == [] then []
    else
      var last := |articles| - 1;
      Publication(articles[..last], available, created)
        + [Attempt(articles[last], available, created(last))]
  }

  /** The `k`-th request of a run is for the `k`-th article, against the run's schema, with the `k`-th outcome. */
  lemma {:induction false} PublicationAt(articles: seq<Article>, available: set<string>, created: nat -> bool)
    ensures forall k :: 0 <= k < |articles| ==>
              Publication(articles, available, created)[k] == Attempt(articles[k], available, created(k))
  {
    if articles != [] {
      var init := articles[..|articles| - 1];
      PublicationAt(init, available, created);
      assert forall k :: 0 <= k < |init| ==> init[k] == articles[k];
    }
  }

  /** The `k`-th request of a run sends the payload of the `k`-th article, built against the run's schema. */
  lemma PublicationSends(articles: seq<Article>, available: set<string>, created: nat -> bool,
                         netloc: string -> string, capitalize: string -> string)
    ensures forall k :: 0 <= k < |articles| ==>
              SentProperties(Publication(articles, available, created)[k], netloc, capitalize)
              == BuildPayload(articles[k], available, netloc, capitalize)
  {
    PublicationAt(articles, available, created);
  }

  lemma PublicationStep(articles: seq<Article>, i: nat, available: set<string>, created: nat -> bool)
    requires i < |articles|
    ensures Publication(articles[..i + 1], available, created)
            == Publication(articles[..i], available, created)
               + [Attempt(articles[i], available, created(i))]
  {
    assert articles[..i + 1][..i] == articles[..i];
  }

  /** The accepted requests of two logs add up. */
  lemma {:induction false} AcceptedConcat(xs: seq<Attempt>, ys: seq<Attempt>)
    ensures Accepted(xs + ys) == Accepted(xs) + Accepted(ys)
    decreases |ys|
  {
    if ys == [] {
      assert xs + ys == xs;
    } else {
      assert (xs + ys)[..|xs + ys| - 1] == xs + ys[..|ys| - 1];
      AcceptedConcat(xs, ys[..|ys| - 1]);
    }
  }

  /** The service accepts as many of a run's requests as the oracle says succeed. */
  lemma {:induction false} AcceptedPublication(articles: seq<Article>, available: set<string>, created: nat -> bool)
    ensures Accepted(Publication(articles, available, created)) == CountCreated(created, |articles|)
  {
    if articles != [] {
      var init := articles[..|articles| - 1];
      var r := Publication(articles, available, created);
      assert r[..|r| - 1] == Publication(init, available, created);
      AcceptedPublication(init, available, created);
    }
  }

  /**
   * What the run can read. `archives` maps each readable ZIP file to the names of its
   * members, and `tables` maps each readable CSV file to its rows; an extracted
   * member is looked up by its name. A path missing from either map stands for the
   * exceptions reading it raises (missing file, bad archive, empty or undecodable CSV);
   * a CSV can also fail while its rows are parsed (`Records.Readable`).
   */
  datatype FileSystem = FileSystem(archives: map<string, seq<string>>, tables: Tables)

  /** The articles of an input file, or why there are none. */
  datatype Loaded = Loaded(articles: seq<Article>) | LoadFailed | Unsupported

  /** Why a run stopped before publishing anything. */
  datatype Failure = SchemaCheckFailed | UnsupportedFormat | ParseFailed | NoArticles

  /** The dictionary `import_articles` returns; `Completed` is the one with `success: True`. */
  datatype ImportResult =
    | Failed(reason: Failure)
    | Completed(total: nat, imported: nat, errors: nat)

  /** The members of an archive whose name ends in `.csv`, in archive order. */
  function CsvMembers(names: seq<string>): (csv: seq<string>)
    ensures |csv| <= |names|
    ensures forall k :: 0 <= k < |csv| ==> EndsWith(csv[k], ".csv") && csv[k] in names
    ensures forall k :: 0 <= k < |names| && EndsWith(names[k], ".csv") ==> names[k] in csv
  {
    if names == [] then []
    else
      var init := CsvMembers(names[..|names| - 1]);
      var last := names[|names| - 1];
      assert forall n :: n in names[..|names| - 1] ==> n in names;
      if EndsWith(last, ".csv") then init + [last] else init
  }

  /** One archive member as the loop keeps it: its name, when that ends in `.csv`. */
  function CsvName(name: string): (kept: Option<string>)
    ensures kept.Some? <==> EndsWith(name, ".csv")
    ensures kept.Some? ==> kept.value == name
  {
    if EndsWith(name, ".csv") then Some(name) else None
  }

  /** The CSV loop is a filter-map of the member names. */
  lemma {:induction false} CsvIsFilterMap(names: seq<string>)
    ensures CsvMembers(names) == FilterMap(names, CsvName)
  {
    if names != [] {
      CsvIsFilterMap(names[..|names| - 1]);
    }
  }

  /**
   * Where each CSV file comes from: `idx` lists, in increasing order, exactly the
   * positions of the member names ending in `.csv`, and the `k`-th file is the member
   * at position `idx[k]`; so the files keep archive order, duplicates included.
   */
  lemma CsvMembersOrigin(names: seq<string>) returns (idx: seq<nat>)
    ensures |idx| == |CsvMembers(names)|
    ensures forall k :: 0 <= k < |idx| ==> idx[k] < |names| && CsvMembers(names)[k] == names[idx[k]]
    ensures forall k :: 0 <= k < |idx| ==> EndsWith(names[idx[k]], ".csv")
    ensures forall k, l :: 0 <= k < l < |idx| ==> idx[k] < idx[l]
    ensures forall j :: 0 <= j < |names| && EndsWith(names[j], ".csv") ==> j in idx
  {
    CsvIsFilterMap(names);
    FilterMapOrigin(names, CsvName);
    idx := Kept(names, CsvName);
  }

  /** `extract_csv_from_zip`: the CSV members of the archive, or `None` where extraction raises. */
  method ExtractCsvFromZip(archives: map<string, seq<string>>, path: string) returns (files: Option<seq<string>>)
    ensures files.None? <==> path !in archives
    ensures files.Some? ==> files.value == CsvMembers(archives[path])
  {
    if path !in archives {
      return None;
    }
    var names := archives[path];
    var extracted: seq<string> := [];
    var i := 0;
    while i < |names|
      invariant 0 <= i <= |names|
      invariant extracted == CsvMembers(names[..i])
    {
      if EndsWith(names[i], ".csv") {
        extracted := extracted + [names[i]];
      }
      assert names[..i + 1][..i] == names[..i];
      i := i + 1;
    }
    assert names[..i] == names;
    return Some(extracted);
  }

  /** Put `xs` in front of the articles of `rest`; a failure stays a failure. */
  function Prepend(xs: seq<Article>, rest: Loaded): Loaded {
    match rest
    case Loaded(ys) => Loaded(xs + ys)
    case _ => rest
  }

  /** The articles of the CSV files of an archive, concatenated in order; any file whose parse raises fails the lot. */
  function ParseFiles(files: seq<string>, tables: Tables): (r: Loaded)
    ensures !r.Unsupported?
    ensures r.LoadFailed? <==> exists k :: 0 <= k < |files| && !Readable(tables, files[k])
  {
    if files == [] then Loaded([])
    else if !Readable(tables, files[0]) then LoadFailed
    else
      var rest := ParseFiles(files[1..], tables);
      assert forall k :: 1 <= k < |files| ==> files[k] == files[1..][k - 1];
      Prepend(ParseRows(tables[files[0]]), rest)
  }

  /** All the rows of the files, one file after another. */
  function ConcatRows(files: seq<string>, tables: Tables): seq<Row>
    requires forall k :: 0 <= k < |files| ==> Readable(tables, files[k])
  {
    if files == [] then []
    else
      assert Readable(tables, files[0]);
      tables[files[0]] + ConcatRows(files[1..], tables)
  }

  /** An archive of several CSV files imports the same articles as one CSV holding all their rows in order. */
  lemma {:induction false} ParseFilesAsOneTable(files: seq<string>, tables: Tables)
    requires forall k :: 0 <= k < |files| ==> Readable(tables, files[k])
    ensures ParseFiles(files, tables) == Loaded(ParseRows(ConcatRows(files, tables)))
  {
    if files == [] {
      assert ConcatRows(files, tables) == [];
    } else {
      assert forall k :: 0 <= k < |files| - 1 ==> files[1..][k] == files[k + 1];
      ParseFilesAsOneTable(files[1..], tables);
      ParseRowsConcat(tables[files[0]], ConcatRows(files[1..], tables));
    }
  }

  /** The articles `import_articles` gathers from its input, dispatching on the file suffix. */
  function LoadInput(path: string, fs: FileSystem): Loaded {
    if EndsWith(path, ".zip") then
      if path in fs.archives then ParseFiles(CsvMembers(fs.archives[path]), fs.tables) else LoadFailed
    else if EndsWith(path, ".csv") then
      if Readable(fs.tables, path) then Loaded(ParseRows(fs.tables[path])) else LoadFailed
    else Unsupported
  }

  /** The loop of `import_articles` over the extracted CSV files, extending the article list file by file. */
  method ParseExtracted(csvFiles: seq<string>, tables: Tables) returns (loaded: Loaded)
    ensures loaded == ParseFiles(csvFiles, tables)
  {
    var all: seq<Article> := [];
    var i := 0;
    while i < |csvFiles|
      invariant 0 <= i <= |csvFiles|
      invariant ParseFiles(csvFiles, tables) == Prepend(all, ParseFiles(csvFiles[i..], tables))
    {
      var parsed := ParsePocketCsv(tables, csvFiles[i]);
      if parsed.None? {
        return LoadFailed;
      }
      assert csvFiles[i..][1..] == csvFiles[i + 1..];
      all := all + parsed.value;
      i := i + 1;
    }
    return Loaded(all);
  }

  /** The file handling of `import_articles`: extract and parse a ZIP, parse a CSV, refuse anything else. */
  method LoadArticles(path: string, fs: FileSystem) returns (loaded: Loaded)
    ensures loaded == LoadInput(path, fs)
  {
    if EndsWith(path, ".zip") {
      var files := ExtractCsvFromZip(fs.archives, path);
      if files.None? {
        return LoadFailed;
      }
      loaded := ParseExtracted(files.value, fs.tables);
    } else if EndsWith(path, ".csv") {
      var parsed := ParsePocketCsv(fs.tables, path);
      if parsed.None? {
        return LoadFailed;
      }
      return Loaded(parsed.value);
    } else {
      return Unsupported;
    }
  }

  /** The properties in `props` whose names the schema lacks, in the order of `props`. */
  function MissingProperties(props: seq<Property>, keys: set<string>): (missing: seq<Property>)
    ensures |missing| <= |props|
    ensures forall p :: p in missing <==> p in props && !Has(keys, p)
  {
    if props == [] then []
    else
      var init := MissingProperties(props[..|props| - 1], keys);
      var last := props[|props| - 1];
      assert props == props[..|props| - 1] + [last];
      if Has(keys, last) then init else init + [last]
  }

  /** One required property as the check sees it: listed when the schema lacks its name. */
  function AbsentFrom(keys: set<string>, p: Property): (listed: Option<Property>)
    ensures listed.Some? <==> !Has(keys, p)
    ensures listed.Some? ==> listed.value == p
  {
    if Has(keys, p) then None else Some(p)
  }

  /** The check's loop is a filter-map of the required properties. */
  lemma {:induction false} MissingIsFilterMap(props: seq<Property>, keys: set<string>)
    ensures MissingProperties(props, keys) == FilterMap(props, p => AbsentFrom(keys, p))
  {
    if props != [] {
      MissingIsFilterMap(props[..|props| - 1], keys);
    }
  }

  /**
   * The missing properties are a subsequence of `props`: `idx` lists, in increasing
   * order, exactly the positions of the properties the schema lacks.
   */
  lemma MissingKeepsOrder(props: seq<Property>, keys: set<string>) returns (idx: seq<nat>)
    ensures |idx| == |MissingProperties(props, keys)|
    ensures forall k :: 0 <= k < |idx| ==> idx[k] < |props| && props[idx[k]] == MissingProperties(props, keys)[k]
    ensures forall k, l :: 0 <= k < l < |idx| ==> idx[k] < idx[l]
    ensures forall j :: 0 <= j < |props| && !Has(keys, props[j]) ==> j in idx
  {
    MissingIsFilterMap(props, keys);
    FilterMapOrigin(props, p => AbsentFrom(keys, p));
    idx := Kept(props, p => AbsentFrom(keys, p));
  }

  /** The schema check passes: the service answered and no required property is missing. */
  predicate SchemaPasses(schema: Option<set<string>>) {
    schema.Some? && MissingProperties(RequiredProperties, schema.value) == []
  }

  /** A schema passes exactly when it holds all four required property names. */
  lemma SchemaPassesIff(schema: Option<set<string>>)
    ensures SchemaPasses(schema) <==>
              schema.Some? && "Title" in schema.value && "URL" in schema.value
              && "Domain" in schema.value && "Source" in schema.value
  {
    if schema.Some? {
      var keys := schema.value;
      var missing := MissingProperties(RequiredProperties, keys);
      assert Name(Title) == "Title" && Name(URL) == "URL" && Name(Domain) == "Domain" && Name(Source) == "Source";
      assert Title in RequiredProperties && URL in RequiredProperties;
      assert Domain in RequiredProperties && Source in RequiredProperties;
      if missing != [] {
        assert missing[0] in missing;
        assert missing[0] in RequiredProperties && !Has(keys, missing[0]);
      }
    }
  }

  class PocketImporter {
    const databaseId: string
    /** The database's property names, as the last schema check found them. */
    var availableProperties: set<string>
    var importedCount: nat
    var errorCount: nat
    /** Every page-creation request this importer has issued, with its outcome. */
    ghost var attempts: seq<Attempt>

    /** The counters count the outcomes of the requests issued. */
    ghost predicate Valid()
      reads this
    {
      importedCount == Accepted(attempts) && importedCount + errorCount == |attempts|
    }

    /** The field initialisation of `__init__`. */
    constructor (databaseId: string)
      ensures this.databaseId == databaseId
      ensures availableProperties == {} && importedCount == 0 && errorCount == 0 && attempts == []
      ensures Valid()
    {
      this.databaseId := databaseId;
      availableProperties := {};
      importedCount, errorCount := 0, 0;
      attempts := [];
    }

    /** `__init__`: a missing token or database id raises `ValueError`, modelled as `None`. */
    static method Create(notionToken: string, databaseId: string) returns (importer: Option<PocketImporter>)
      ensures importer.None? <==> notionToken == "" || databaseId == ""
      ensures importer.Some? ==> fresh(importer.value) && importer.value.Valid()
      ensures importer.Some? ==> importer.value.databaseId == databaseId && importer.value.attempts == []
      ensures importer.Some? ==> importer.value.availableProperties == {}
      ensures importer.Some? ==> importer.value.importedCount == 0 && importer.value.errorCount == 0
    {
      if notionToken == "" || databaseId == "" {
        return None;
      }
      var made := new PocketImporter(databaseId);
      return Some(made);
    }

    /**
     * `check_database_properties`, given what `databases.retrieve` returned. On an
     * answer it records the full key set, even when the check then fails, and lists
     * the missing required names in their fixed order.
     */
    method CheckDatabaseProperties(retrieved: Option<set<string>>) returns (ok: bool, missing: seq<Property>)
      modifies this`availableProperties
      ensures ok == SchemaPasses(retrieved)
      ensures retrieved.None? ==> missing == [] && availableProperties == old(availableProperties)
      ensures retrieved.Some? ==> availableProperties == retrieved.value
      ensures retrieved.Some? ==> missing == MissingProperties(RequiredProperties, retrieved.value)
    {
      if retrieved.None? {
        return false, [];
      }
      var keys := retrieved.value;
      availableProperties := keys;
      missing := [];
      var i := 0;
      while i < |RequiredProperties|
        invariant 0 <= i <= |RequiredProperties|
        invariant missing == MissingProperties(RequiredProperties[..i], keys)
      {
        var prop := RequiredProperties[i];
        if Name(prop) !in keys {
          missing := missing + [prop];
        }
        assert RequiredProperties[..i + 1][..i] == RequiredProperties[..i];
        i := i + 1;
      }
      assert RequiredProperties[..i] == RequiredProperties;
      ok := missing == [];
    }

    /**
     * `create_notion_page`: send one request for the article, its properties built
     * by `BuildPayload` against the recorded schema, and log it; `created` is whether
     * `pages.create` returned rather than raised. Exactly one counter goes up, and
     * the result says which.
     */
    method CreateNotionPage(a: Article, created: bool)
      returns (success: bool)
      requires Valid()
      modifies this`importedCount, this`errorCount, this`attempts
      ensures Valid()
      ensures success == created
      ensures importedCount == old(importedCount) + (if created then 1 else 0)
      ensures errorCount == old(errorCount) + (if created then 0 else 1)
      ensures attempts == old(attempts) + [Attempt(a, availableProperties, created)]
    {
      attempts := attempts + [Attempt(a, availableProperties, created)];
      assert attempts[..|attempts| - 1] == old(attempts);
      if created {
        importedCount := importedCount + 1;
        return true;
      } else {
        errorCount := errorCount + 1;
        return false;
      }
    }

    /**
     * The publishing loop of `import_articles`: one request per article in order,
     * call `k` succeeding iff `created(k)`, and a pause between consecutive articles.
     * Returns the number of pauses.
     */
    method PublishAll(articles: seq<Article>, created: nat -> bool) returns (sleeps: nat)
      requires Valid()
      modifies this`importedCount, this`errorCount, this`attempts
      ensures Valid()
      ensures attempts == old(attempts) + Publication(articles, availableProperties, created)
      ensures importedCount == old(importedCount) + CountCreated(created, |articles|)
      ensures errorCount == old(errorCount) + |articles| - CountCreated(created, |articles|)
      ensures sleeps == if articles == [] then 0 else |articles| - 1
    {
      ghost var before := attempts;
      sleeps := 0;
      var i := 0;
      while i < |articles|
        invariant 0 <= i <= |articles|
        invariant Valid()
        invariant attempts == before + Publication(articles[..i], availableProperties, created)
        invariant sleeps == if i < |articles| || i == 0 then i else i - 1
      {
        PublicationStep(articles, i, availableProperties, created);
        var _ := CreateNotionPage(articles[i], created(i));
        if i + 1 < |articles| {
          sleeps := sleeps + 1;
        }
        i := i + 1;
      }
      assert articles[..i] == articles;
      AcceptedConcat(before, Publication(articles, availableProperties, created));
      AcceptedPublication(articles, availableProperties, created);
    }

    /**
     * `import_articles`: check the schema, gather the articles, publish them and
     * report the totals. The counters are not reset, so a second run on the same
     * importer reports totals across both runs.
     */
    method ImportArticles(path: string, fs: FileSystem, schema: Option<set<string>>, created: nat -> bool)
      returns (result: ImportResult, sleeps: nat)
      requires Valid()
      modifies this
      ensures Valid()
      ensures schema.Some? ==> availableProperties == schema.value
      ensures schema.None? ==> availableProperties == old(availableProperties)
      ensures !SchemaPasses(schema) ==> result == Failed(SchemaCheckFailed)
      ensures SchemaPasses(schema) && LoadInput(path, fs).Unsupported? ==> result == Failed(UnsupportedFormat)
      ensures SchemaPasses(schema) && LoadInput(path, fs).LoadFailed? ==> result == Failed(ParseFailed)
      ensures SchemaPasses(schema) && LoadInput(path, fs) == Loaded([]) ==> result == Failed(NoArticles)
      ensures result.Failed? ==>
                attempts == old(attempts) && importedCount == old(importedCount)
                && errorCount == old(errorCount) && sleeps == 0
      ensures result.Completed? <==> SchemaPasses(schema) && LoadInput(path, fs).Loaded? && LoadInput(path, fs).articles != []
      ensures result.Completed? ==>
                var articles := LoadInput(path, fs).articles;
                && result.total == |articles|
                && result.imported == importedCount == old(importedCount) + CountCreated(created, |articles|)
                && result.errors == errorCount
                && result.imported + result.errors == old(importedCount) + old(errorCount) + result.total
                && attempts == old(attempts) + Publication(articles, schema.value, created)
                && sleeps == |articles| - 1
    {
      var ok, _ := CheckDatabaseProperties(schema);
      if !ok {
        return Failed(SchemaCheckFailed), 0;
      }
      var loaded := LoadArticles(path, fs);
      if loaded.Unsupported? {
        return Failed(UnsupportedFormat), 0;
      } else if loaded.LoadFailed? {
        return Failed(ParseFailed), 0;
      }
      var articles := loaded.articles;
      if articles == [] {
        return Failed(NoArticles), 0;
      }
      sleeps := PublishAll(articles, created);
      result := Completed(|articles|, importedCount, errorCount);
    }
  }

  /**
   * One run on a new importer, as `main` drives it: construct, then import. `None`
   * is the `ValueError` of a missing token or database id. Because the counters
   * start at zero, a completed run accounts for every article exactly once.
   */
  method ImportOnce(notionToken: string, databaseId: string, path: string, fs: FileSystem,
                    schema: Option<set<string>>, created: nat -> bool)
    returns (outcome: Option<ImportResult>, sleeps: nat)
    ensures outcome.None? <==> notionToken == "" || databaseId == ""
    ensures outcome.Some? ==>
              (outcome.value.Completed? <==>
                 SchemaPasses(schema) && LoadInput(path, fs).Loaded? && LoadInput(path, fs).articles != [])
    ensures outcome.Some? && outcome.value.Completed? ==>
              && outcome.value.total == |LoadInput(path, fs).articles|
              && outcome.value.imported + outcome.value.errors == outcome.value.total
              && outcome.value.imported == CountCreated(created, outcome.value.total)
              && sleeps == outcome.value.total - 1
    ensures outcome.None? || outcome.value.Failed? ==> sleeps == 0
  {
    var importer := PocketImporter.Create(notionToken, databaseId);
    if importer.None? {
      return None, 0;
    }
    var result;
    result, sleeps := importer.value.ImportArticles(path, fs, schema, created);
    return Some(result), sleeps;
  }
}
