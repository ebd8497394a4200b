/**
 * Concrete inputs worked through the definitions: rows, tag cells, schemas and
 * page-creation outcomes, each with the result the importer gives for it.
 */
module Scenarios {
  import opened Wrappers
  import opened Text
  import opened Records
  import opened Payload
  import opened Importer

  /** A schema without `Domain` fails the check and names exactly `Domain` as missing. */
  lemma SchemaMissingDomain()
    ensures MissingProperties(RequiredProperties, {"Title", "URL", "Source"}) == [Domain]
    ensures !SchemaPasses(Some({"Title", "URL", "Source"}))
  {
    var keys := {"Title", "URL", "Source"};
    assert Has(keys, Title) && Has(keys, URL) && !Has(keys, Domain) && Has(keys, Source);
    assert MissingProperties([Title], keys) == [] by {
      assert [Title][..0] == [];
    }
    assert MissingProperties([Title, URL], keys) == [] by {
      assert [Title, URL][..1] == [Title];
    }
    assert MissingProperties([Title, URL, Domain], keys) == [Domain] by {
      assert [Title, URL, Domain][..2] == [Title, URL];
    }
    assert RequiredProperties[..3] == [Title, URL, Domain];
  }

  /**
   * Three rows: a titled one, one whose url is NaN, and one whose title is NaN.
   * Two articles come out, the second titled by its url.
   */
  lemma ThreeRows()
    ensures ParseRows([
              Row(map["title" := Some("A"), "url" := Some("u1")], Caught),
              Row(map["title" := Some("B"), "url" := None], Caught),
              Row(map["title" := None, "url" := Some("u3")], Caught)])
            == [Article("A", "u1", [], None, None, "unread"),
                Article("u3", "u3", [], None, None, "unread")]
  {
    var r1 := Row(map["title" := Some("A"), "url" := Some("u1")], Caught);
    var r2 := Row(map["title" := Some("B"), "url" := None], Caught);
    var r3 := Row(map["title" := None, "url" := Some("u3")], Caught);
    var a1 := Article("A", "u1", [], None, None, "unread");
    var a3 := Article("u3", "u3", [], None, None, "unread");
    TitledRow();
    NaNUrlRow();
    NaNTitleRow();
    assert [r1][..0] == [];
    assert ParseRows([r1]) == [a1];
    assert [r1, r2][..1] == [r1];
    assert ParseRows([r1, r2]) == [a1];
    assert [r1, r2, r3][..2] == [r1, r2];
  }

  lemma TitledRow()
    ensures NormalizeRow(Row(map["title" := Some("A"), "url" := Some("u1")], Caught))
            == Some(Article("A", "u1", [], None, None, "unread"))
  {
  }

  lemma NaNUrlRow()
    ensures NormalizeRow(Row(map["title" := Some("B"), "url" := None], Caught)) == None
  {
  }

  lemma NaNTitleRow()
    ensures NormalizeRow(Row(map["title" := None, "url" := Some("u3")], Caught))
            == Some(Article("u3", "u3", [], None, None, "unread"))
  {
  }

  /**
   * A row from a file without `url` and `title` columns is kept, with an empty url
   * and, through the title fallback, an empty title.
   */
  lemma NoUrlColumn()
    ensures NormalizeRow(Row(map["time_added" := Some("42")], Converted(42)))
            == Some(Article("", "", [], Some(42), Some("42"), "unread"))
  {
    assert NatDigits(42) == "42";
  }

  /** A status cell that pandas reads as NaN becomes the text "nan", not the default. */
  lemma NaNStatus()
    ensures NormalizeRow(Row(map["url" := Some("u"), "title" := Some("T"), "status" := None], Caught))
            == Some(Article("T", "u", [], None, None, "nan"))
  {
  }

  /** A padded tag cell with an empty fragment: each fragment is stripped and the empty one dropped. */
  lemma PaddedCommaField()
    ensures ParseTagField(Some(" a , ,b ")) == ["a", "b"]
  {
    PaddedCellStrip();
    PaddedCellSplit();
    PaddedCellClean();
    assert "a , ,b"[2] == ',';
  }

  lemma PaddedCellStrip()
    ensures Strip(" a , ,b ") == "a , ,b"
  {
    StripPadded(" ", "a , ,b", " ");
    assert " " + "a , ,b" + " " == " a , ,b ";
  }

  lemma PaddedCellSplit()
    ensures Split("a , ,b", ',') == ["a ", " ", "b"]
  {
    assert Join(["a ", " ", "b"], ',') == "a , ,b";
    SplitJoin(["a ", " ", "b"], ',');
  }

  lemma PaddedCellClean()
    ensures CleanFragments(["a ", " ", "b"]) == ["a", "b"]
  {
    StripPadded("", "a", " ");
    assert "" + "a" + " " == "a ";
    var parts := ["a ", " ", "b"];
    assert parts[1..] == [" ", "b"];
    BlankThenB();
  }

  lemma BlankThenB()
    ensures CleanFragments([" ", "b"]) == ["b"]
  {
    StripPadded(" ", "", "");
    assert " " + "" + "" == " ";
    var parts := [" ", "b"];
    assert parts[1..] == ["b"];
    OnlyB();
  }

  lemma OnlyB()
    ensures CleanFragments(["b"]) == ["b"]
  {
    StripPadded("", "b", "");
    assert "" + "b" + "" == "b";
    assert ["b"][1..] == [];
  }

  /**
   * A timestamp whose conversion raises past the loop's handler makes the whole file
   * unreadable, and a CSV import of it fails; the same stamp on a row without a url
   * is never reached.
   */
  lemma OverflowingStamp()
    ensures !Readable(map["f.csv" := [Row(map["url" := Some("u"), "time_added" := Some("inf")], Escapes)]], "f.csv")
    ensures LoadInput("f.csv", FileSystem(map[],
              map["f.csv" := [Row(map["url" := Some("u"), "time_added" := Some("inf")], Escapes)]])) == LoadFailed
    ensures Readable(map["f.csv" := [Row(map["url" := None, "time_added" := Some("inf")], Escapes)]], "f.csv")
  {
    var raising := Row(map["url" := Some("u"), "time_added" := Some("inf")], Escapes);
    assert RowRaises([raising][0]);
    assert EndsWith("f.csv", ".csv");
    assert !EndsWith("f.csv", ".zip");
  }

  /** One failure in five: four imported, one error. */
  lemma OneFailureInFive()
    ensures CountCreated(k => k != 2, 5) == 4
  {
    var created := (k: nat) => k != 2;
    assert CountCreated(created, 1) == 1;
    assert CountCreated(created, 3) == 2;
  }
}
