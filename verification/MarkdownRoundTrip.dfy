// Importing an export gives its memories back.
module MarkdownRoundTrip {
  // The header imports nothing, and each entry what it was written for, exactly when bodies keep apart.

  import opened Strings
  import E = MarkdownExport
  import opened MarkdownImport
  import opened MarkdownSections
  import opened MarkdownEntry
  import opened MarkdownSpill
  import opened MarkdownDocument
  import opened MarkdownFences

  /**
   * A section comes back as its record exactly when the record has a body in which no comment opens and a title that an
   * import leaves alone.
   */
  lemma ComesBackExactlyWhenPlain(r: E.Record, d: Defaults)
    requires MetaOk(r)
    ensures ImportAll(SectionOf(r), d) == [Expected(r, d)] <==> Exportable(r)
  {
    if E.ExportedBody(r) == "" {
      EmptyBodyIsLost(r, d);
    } else if Contains(DemotedBody(r), OPEN) {
      CommentedBodyIsLost(r, d);
      BodyHasNoCommentIf(r);
    } else {
      WrittenWasPlain(r);
      EntryIsReadBack(r, d);
      TitleIsKept(r);
    }
  }

  lemma SortedKeeps(records: seq<E.Record>)
    ensures forall r :: r in E.Sorted(records) <==> r in records
  {
    var sorted := E.Sorted(records);
    forall r ensures r in sorted <==> r in records {
      assert r in sorted <==> r in multiset(sorted);
      assert r in records <==> r in multiset(records);
    }
  }

  /** Scanning a rendered document yields one memory per record, in rendered order, with its fields. */
  lemma ImportUndoesExport(project: string, records: seq<E.Record>, banner: E.Banner, d: Defaults)
    requires BannerOk(project, banner) && forall r :: r in records ==> Exportable(r)
    requires KeptApart(E.Sorted(records))
    ensures ImportAll(SplitSections(Unlines(E.DocLines(project, records, banner))), d)
        == AllExpected(E.Sorted(records), d)
  {
    var sorted := E.Sorted(records);
    SortedKeeps(records);
    var title := HeadingText("# " + E.ProjectTitle(project));
    DocumentSections(project, sorted, banner);
    SectionsOfEntries(sorted, title, HeaderRestOf(sorted, banner));
    HeaderImportsNothing(title, sorted, banner, d);
    ImportAllConcat(Flush(Some(Section(title, HeaderRestOf(sorted, banner)))), SectionsOf(sorted), d);
    EntriesComeBack(sorted, d);
  }

  lemma TitlesOfSorted(records: seq<E.Record>)
    ensures TitlesOk(E.Sorted(records)) <==> forall r :: r in records ==> TitleOk(r)
  {
    SortedKeeps(records);
    var sorted := E.Sorted(records);
    if TitlesOk(sorted) {
      forall r | r in records ensures TitleOk(r) {
        var i :| 0 <= i < |sorted| && sorted[i] == r;
      }
    }
    if forall r :: r in records ==> TitleOk(r) {
      forall i | 0 <= i < |sorted| ensures TitleOk(sorted[i]) {
        assert sorted[i] in records;
      }
    }
  }

  /** Otherwise some memory comes back as something else, or not at all. */
  lemma ImportLosesSomething(project: string, records: seq<E.Record>, banner: E.Banner, d: Defaults)
    requires BannerOk(project, banner) && forall r :: r in records ==> Importable(r) && HeadingOk(r)
    requires !(TitlesOk(E.Sorted(records)) && KeptApart(E.Sorted(records)))
    ensures ImportAll(SplitSections(Unlines(E.DocLines(project, records, banner))), d)
        != AllExpected(E.Sorted(records), d)
  {
    var sorted := E.Sorted(records);
    SortedKeeps(records);
    var title := HeadingText("# " + E.ProjectTitle(project));
    DocumentSections(project, sorted, banner);
    HeaderImportsNothing(title, sorted, banner, d);
    EntriesGoWrong(sorted, title, HeaderRestOf(sorted, banner), d);
  }

  lemma RoundTripsExactlyWhenKeptApart(project: string, records: seq<E.Record>, banner: E.Banner, d: Defaults)
    requires BannerOk(project, banner) && forall r :: r in records ==> Importable(r) && HeadingOk(r)
    ensures (ImportAll(SplitSections(Unlines(E.DocLines(project, records, banner))), d)
             == AllExpected(E.Sorted(records), d))
            <==> KeptApart(E.Sorted(records)) && forall r :: r in records ==> TitleOk(r)
  {
    TitlesOfSorted(records);
    if TitlesOk(E.Sorted(records)) && KeptApart(E.Sorted(records)) {
      ImportUndoesExport(project, records, banner, d);
    } else {
      ImportLosesSomething(project, records, banner, d);
    }
  }

  /** The two programs, one after the other. */
  method ExportThenImport(project: string, records: seq<E.Record>, banner: E.Banner, d: Defaults)
    returns (memories: seq<Imported>)
    requires BannerOk(project, banner) && forall r :: r in records ==> Importable(r)
    ensures KeptApart(E.Sorted(records)) && (forall r :: r in records ==> TitleOk(r)) ==>
              memories == AllExpected(E.Sorted(records), d)
    ensures (forall r :: r in records ==> HeadingOk(r)) && memories == AllExpected(E.Sorted(records), d) ==>
              KeptApart(E.Sorted(records)) && forall r :: r in records ==> TitleOk(r)
  {
    var doc := E.RenderMarkdown(project, records, banner);
    memories := ScanDocument(doc, d);
    if KeptApart(E.Sorted(records)) && forall r :: r in records ==> TitleOk(r) {
      ImportUndoesExport(project, records, banner, d);
    } else if forall r :: r in records ==> HeadingOk(r) {
      RoundTripsExactlyWhenKeptApart(project, records, banner, d);
    }
  }

  /**
   * The exporter leaves a heading between two fences that only it sees alone, and the importer splits the memory there:
   * it does not come back.
   */
  lemma AFenceOnlyTheExporterSees(text: string, project: string, banner: E.Banner, d: Defaults)
    requires Without(text, '\n') && !Contains("# " + text, OPEN) && BannerOk(project, banner)
    ensures
      var r := HiddenFence(text);
      && Exportable(r) && !E.Fences(Split(E.ExportedBody(r), '\n'), false)
      && ImportAll(SplitSections(Unlines(E.DocLines(project, [r], banner))), d) != AllExpected([r], d)
  {
    var r := HiddenFence(text);
    HiddenFenceIsExportable(text);
    HiddenFenceIsNotSheltered(text);
    HiddenFenceEnds(text);
    assert E.Sorted([r]) == [r];
    RoundTripsExactlyWhenKeptApart(project, [r], banner, d);
  }
}
