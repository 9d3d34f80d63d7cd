/**
 * `load_rows` and its nested `load_folder` (src/time_eval.py): each folder's
 * entries in sorted path order, keeping the regular files whose `Date:`
 * header extracts, labelled 0 for easy_ham and 1 for spam_2. A folder is
 * given as its listing, the file texts as already decoded, and the date
 * extraction as the function `extract` (`extract_date_utc` for a given date
 * parser is `DateOf(parse)`).
 */
module Loader {
  import opened Options
  import opened Calendar
  import opened DateHeader
  import opened Sorting

  type Label = l: int | 0 <= l <= 1
  const HAM: Label := 0
  const SPAM: Label := 1

  /** One entry of a folder: its file name, whether it is a regular file, and its text. */
  datatype FileEntry = FileEntry(name: string, isFile: bool, text: string)

  /** What `extract_date_utc` is to the loader: a text's UTC date, or None. */
  type Extractor = string -> Option<DateTime>

  /** `extract_date_utc` with the date parser `parse`. */
  function DateOf(parse: Parser): Extractor
  {
    text => ExtractDateUtc(text, parse)
  }

  /** A row of `load_rows`: the dict with keys text, label (here `category`, as `label` is a Dafny keyword) and date. */
  datatype Row = Row(text: string, category: Label, date: DateTime)

  /** Python's `str` ordering: lexicographic by code point, a proper prefix first. */
  predicate NameLe(a: string, b: string) {
    a == [] || (b != [] && (a[0] < b[0] || (a[0] == b[0] && NameLe(a[1..], b[1..]))))
  }

  /** Paths of one folder compare as their file names do. */
  predicate ByName(a: FileEntry, b: FileEntry) {
    NameLe(a.name, b.name)
  }

  lemma {:induction false} NameLeTotal(a: string, b: string)
    ensures NameLe(a, b) || NameLe(b, a)
  {
    if a != [] && b != [] && a[0] == b[0] {
      NameLeTotal(a[1..], b[1..]);
    }
  }

  lemma {:induction false} NameLeTransitive(a: string, b: string, c: string)
    requires NameLe(a, b) && NameLe(b, c)
    ensures NameLe(a, c)
  {
    if a != [] && b != [] && c != [] && a[0] == b[0] && b[0] == c[0] {
      NameLeTransitive(a[1..], b[1..], c[1..]);
    }
  }

  lemma ByNameIsTotalPreorder()
    ensures TotalPreorder(ByName)
  {
    forall a: FileEntry, b: FileEntry ensures ByName(a, b) || ByName(b, a) {
      NameLeTotal(a.name, b.name);
    }
    forall a: FileEntry, b: FileEntry, c: FileEntry | ByName(a, b) && ByName(b, c) ensures ByName(a, c) {
      NameLeTransitive(a.name, b.name, c.name);
    }
  }

  /** The row a folder entry yields, if any. */
  function RowOf(e: FileEntry, category: Label, extract: Extractor): Option<Row> {
    if !e.isFile then None
    else match extract(e.text)
      case None => None
      case Some(dt) => Some(Row(e.text, category, dt))
  }

  /** The rows that entries yield, in the order of the entries. */
  function FolderRows(entries: seq<FileEntry>, category: Label, extract: Extractor): seq<Row> {
    if entries == [] then []
    else
      var n := |entries| - 1;
      FolderRows(entries[..n], category, extract)
        + match RowOf(entries[n], category, extract) case None => [] case Some(r) => [r]
  }

  /** `load_folder(folder, category)`: appends the folder's rows to `rows`. */
  method LoadFolder(listing: seq<FileEntry>, category: Label, extract: Extractor, rows: seq<Row>)
    returns (rows': seq<Row>)
    ensures rows' == rows + FolderRows(SortBy(listing, ByName), category, extract)
  {
    var paths := SortBy(listing, ByName);
    rows' := rows;
    for i := 0 to |paths|
      invariant rows' == rows + FolderRows(paths[..i], category, extract)
    {
      assert paths[..i + 1][..i] == paths[..i];
      var p := paths[i];
      if !p.isFile {
        continue;
      }
      var dt := extract(p.text);
      if dt.None? {
        continue;
      }
      rows' := rows' + [Row(p.text, category, dt.value)];
    }
    assert paths[..|paths|] == paths;
  }

  /** The rows `load_rows` returns: easy_ham's, then spam_2's. */
  function LoadedRows(easyHam: seq<FileEntry>, spam2: seq<FileEntry>, extract: Extractor): seq<Row> {
    FolderRows(SortBy(easyHam, ByName), HAM, extract) + FolderRows(SortBy(spam2, ByName), SPAM, extract)
  }

  /** `load_rows(data_dir)`, with the two folders given as listings. */
  method LoadRows(easyHam: seq<FileEntry>, spam2: seq<FileEntry>, extract: Extractor) returns (rows: seq<Row>)
    ensures rows == LoadedRows(easyHam, spam2, extract)
  {
    var ham := LoadFolder(easyHam, HAM, extract, []);
    assert [] + FolderRows(SortBy(easyHam, ByName), HAM, extract) == FolderRows(SortBy(easyHam, ByName), HAM, extract);
    rows := LoadFolder(spam2, SPAM, extract, ham);
  }

  /** A row comes from a folder exactly when some regular file of it has an extractable date. */
  lemma {:induction false} FolderRowsMembers(entries: seq<FileEntry>, category: Label, extract: Extractor, r: Row)
    ensures r in FolderRows(entries, category, extract) <==> exists e :: e in entries && RowOf(e, category, extract) == Some(r)
  {
    if entries != [] {
      var n := |entries| - 1;
      FolderRowsMembers(entries[..n], category, extract, r);
      assert entries == entries[..n] + [entries[n]];
      assert forall e :: e in entries <==> e in entries[..n] || e == entries[n];
    }
  }

  /** Every row of a folder carries the folder's label and the date extracted from its own text. */
  lemma {:induction false} FolderRowsFields(entries: seq<FileEntry>, category: Label, extract: Extractor)
    ensures forall r :: r in FolderRows(entries, category, extract) ==>
      r.category == category && extract(r.text) == Some(r.date)
  {
    if entries != [] {
      FolderRowsFields(entries[..|entries| - 1], category, extract);
    }
  }

  /** A row of one loaded folder stands for a regular file of its listing whose date extracts. */
  lemma SortedFolderMembers(listing: seq<FileEntry>, category: Label, extract: Extractor, r: Row)
    ensures r in FolderRows(SortBy(listing, ByName), category, extract) <==>
      r.category == category && exists e :: e in listing && e.isFile && e.text == r.text && extract(e.text) == Some(r.date)
  {
    var paths := SortBy(listing, ByName);
    FolderRowsMembers(paths, category, extract, r);
    forall e ensures e in paths <==> e in listing {
      assert e in paths <==> e in multiset(paths);
      assert e in listing <==> e in multiset(listing);
    }
  }

  /**
   * What `load_rows` keeps: a row with label 0 stands for a regular file of
   * easy_ham, one with label 1 for a regular file of spam_2, and it exists
   * exactly when the file's date extracts. Its date is that extracted date.
   */
  lemma LoadedRowsMembers(easyHam: seq<FileEntry>, spam2: seq<FileEntry>, extract: Extractor, r: Row)
    ensures r in LoadedRows(easyHam, spam2, extract) <==>
      (r.category == HAM && exists e :: e in easyHam && e.isFile && e.text == r.text && extract(e.text) == Some(r.date))
      || (r.category == SPAM && exists e :: e in spam2 && e.isFile && e.text == r.text && extract(e.text) == Some(r.date))
  {
    SortedFolderMembers(easyHam, HAM, extract, r);
    SortedFolderMembers(spam2, SPAM, extract, r);
  }

  /** All easy_ham rows precede all spam_2 rows. */
  lemma HamBeforeSpam(easyHam: seq<FileEntry>, spam2: seq<FileEntry>, extract: Extractor)
    ensures var rows := LoadedRows(easyHam, spam2, extract);
      forall i, j :: 0 <= i < j < |rows| && rows[i].category == SPAM ==> rows[j].category == SPAM
  {
    var hs, ss := SortBy(easyHam, ByName), SortBy(spam2, ByName);
    FolderRowsFields(hs, HAM, extract);
    FolderRowsFields(ss, SPAM, extract);
    LabelledBlocks(FolderRows(hs, HAM, extract), FolderRows(ss, SPAM, extract));
  }

  /** Rows all labelled 0 followed by rows all labelled 1: a 1 is never followed by a 0. */
  lemma LabelledBlocks(ham: seq<Row>, spam: seq<Row>)
    requires forall r :: r in ham ==> r.category == HAM
    requires forall r :: r in spam ==> r.category == SPAM
    ensures var rows := ham + spam;
      forall i, j :: 0 <= i < j < |rows| && rows[i].category == SPAM ==> rows[j].category == SPAM
  {
    var rows := ham + spam;
    forall k | 0 <= k < |rows| ensures rows[k].category == (if k < |ham| then HAM else SPAM) {
      if k < |ham| {
        assert rows[k] == ham[k];
      } else {
        assert rows[k] == spam[k - |ham|];
      }
    }
  }

  /** Each folder's rows follow the sorted order of the folder's paths. */
  lemma FolderInPathOrder(listing: seq<FileEntry>)
    ensures multiset(SortBy(listing, ByName)) == multiset(listing)
    ensures SortedBy(SortBy(listing, ByName), ByName)
  {
    ByNameIsTotalPreorder();
    SortByIsSorted(listing, ByName);
  }
}
