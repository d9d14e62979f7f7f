/** The end of each category in public/test.php: the accumulated records are written as a
    CSV file with a fixed header, and the batch moves on to the next category whether the
    file could be opened or not. */
module Export {
  import opened Crawler

  /** A CSV file as the sequence of its records, each the sequence of its fields. */
  type Csv = seq<seq<string>>

  const Header: seq<string> := ["Nom", "Image", "Lien", "Peut être obtenu sur"]

  /** The associative array appended to `$data` for one row, keyed by column name. */
  function Assoc(rec: Record): map<string, string> {
    map["Nom" := rec.name, "Image" := rec.image, "Lien" := rec.link,
        "Peut être obtenu sur" := rec.obtainedOn]
  }

  /** The fields `fputcsv` writes for one record: the array's values in insertion order. */
  function Fields(rec: Record): (f: seq<string>)
    ensures |f| == |Header|
  {
    [rec.name, rec.image, rec.link, rec.obtainedOn]
  }

  /** The field in column `i` is the value the array stores under the `i`-th column name of
      the header. */
  lemma FieldsInHeaderOrder(rec: Record)
    ensures forall i :: 0 <= i < |Header| ==> Header[i] in Assoc(rec) && Fields(rec)[i] == Assoc(rec)[Header[i]]
  {
  }

  /** The file written for a category: the header first, then one record per accumulated
      row, in accumulator order; the header alone when nothing was crawled. */
  function CsvOf(data: seq<Record>): (csv: Csv)
    ensures |csv| == |data| + 1 && csv[0] == Header
    ensures forall i :: 0 <= i < |data| ==> csv[i + 1] == Fields(data[i])
  {
    if data == [] then [Header] else CsvOf(data[..|data| - 1]) + [Fields(data[|data| - 1])]
  }

  /** One more record adds its line at the end of the file. */
  lemma CsvOfSnoc(data: seq<Record>, i: nat)
    requires i < |data|
    ensures CsvOf(data[..i + 1]) == CsvOf(data[..i]) + [Fields(data[i])]
  {
    assert data[..i + 1][..i] == data[..i];
  }

  /** The file name of a category. */
  function FileName(key: string): string {
    "wakfu_" + key + ".csv"
  }

  /** The file name is the key between the prefix `wakfu_` and the extension `.csv`. */
  lemma FileNameParts(key: string)
    ensures |FileName(key)| == |key| + 10
    ensures FileName(key)[..6] == "wakfu_" && FileName(key)[6..6 + |key|] == key
    ensures FileName(key)[6 + |key|..] == ".csv"
  {
  }

  /** Different categories write different files. */
  lemma FileNameInjective(a: string, b: string)
    requires FileName(a) == FileName(b)
    ensures a == b
  {
    FileNameParts(a);
    FileNameParts(b);
  }

  /** One entry of the category map: its key and the URL of its first listing page. */
  datatype Category = Category(key: string, baseUrl: Url)

  const Categories: seq<Category> := [
    Category("familiers", "https://www.wakfu.com/fr/mmorpg/encyclopedie/familiers"),
    Category("ressources", "https://www.wakfu.com/fr/mmorpg/encyclopedie/ressources")
  ]

  /** Keys of a PHP array are unique. */
  predicate DistinctKeys(categories: seq<Category>) {
    forall i, j :: 0 <= i < j < |categories| ==> categories[i].key != categories[j].key
  }

  /** The files a batch over `categories` writes: those of the categories whose file opens. */
  ghost function Written(categories: seq<Category>, openable: set<string>): set<string> {
    set i | 0 <= i < |categories| && FileName(categories[i].key) in openable :: FileName(categories[i].key)
  }

  lemma Overwrite<K, V>(m: map<K, V>, k: K, a: V, b: V)
    ensures m[k := a][k := b] == m[k := b]
  {
  }

  /** The working directory: the files it holds, and the names `fopen(…, "w")` succeeds on. */
  class Disk {
    var files: map<string, Csv>
    const openable: set<string>

    constructor (files: map<string, Csv>, openable: set<string>)
      ensures this.files == files && this.openable == openable
    {
      this.files := files;
      this.openable := openable;
    }

    /** Opens (and truncates) the category's file, writes the header and then each record.
        When the file cannot be opened nothing is written. */
    method Export(key: string, data: seq<Record>) returns (written: bool)
      modifies this
      ensures written == (FileName(key) in openable)
      ensures files == if written then old(files)[FileName(key) := CsvOf(data)] else old(files)
    {
      var name := FileName(key);
      if name !in openable {
        return false;
      }
      var contents: Csv := [];
      files := files[name := contents];
      contents := contents + [Header];
      Overwrite(old(files), name, [], contents);
      files := files[name := contents];
      var i := 0;
      while i < |data|
        invariant 0 <= i <= |data|
        invariant contents == CsvOf(data[..i])
        invariant files == old(files)[name := contents]
      {
        CsvOfSnoc(data, i);
        Overwrite(old(files), name, contents, contents + [Fields(data[i])]);
        contents := contents + [Fields(data[i])];
        files := files[name := contents];
        i := i + 1;
      }
      assert data[..i] == data;
      written := true;
    }
  }

  /** Category `category` was crawled up to page `stop`, and, when its file opens, the file
      holds exactly the header and the records accumulated before that page. */
  predicate Exported(site: Site, category: Category, stop: nat, files: map<string, Csv>, openable: set<string>) {
    StopsAt(site, category.baseUrl, stop) &&
    (FileName(category.key) in openable ==>
      FileName(category.key) in files &&
      files[FileName(category.key)] == CsvOf(Accumulated(site, category.baseUrl, stop - 1)))
  }

  /** Files that no category writes keep their contents. */
  predicate OthersKept(written: set<string>, before: map<string, Csv>, after: map<string, Csv>) {
    after.Keys == before.Keys + written &&
    forall f :: f in before && f !in written ==> after[f] == before[f]
  }

  /** Writing another category's file leaves a category's export as it was. */
  lemma ExportedKept(site: Site, category: Category, stop: nat, before: map<string, Csv>,
                     after: map<string, Csv>, openable: set<string>, name: string, isOpen: bool,
                     contents: Csv)
    requires Exported(site, category, stop, before, openable)
    requires name != FileName(category.key)
    requires after == if isOpen then before[name := contents] else before
    ensures Exported(site, category, stop, after, openable)
  {
  }

  /** One more export keeps every file that it does not write. */
  lemma OthersKeptStep(written: set<string>, orig: map<string, Csv>, before: map<string, Csv>,
                       after: map<string, Csv>, name: string, isOpen: bool, contents: Csv)
    requires OthersKept(written, orig, before)
    requires after == if isOpen then before[name := contents] else before
    ensures OthersKept(written + (if isOpen then {name} else {}), orig, after)
  {
  }

  /** The export just made: the category stopped at `last` and, when its file opens, the file
      now holds what it accumulated. */
  lemma ExportedFresh(site: Site, category: Category, last: nat, data: seq<Record>,
                      before: map<string, Csv>, after: map<string, Csv>, openable: set<string>,
                      isOpen: bool)
    requires StopsAt(site, category.baseUrl, last)
    requires data == Accumulated(site, category.baseUrl, last - 1)
    requires isOpen == (FileName(category.key) in openable)
    requires after == if isOpen then before[FileName(category.key) := CsvOf(data)] else before
    ensures Exported(site, category, last, after, openable)
  {
  }

  /** Exporting category `i` keeps the exports of the categories before it and adds its own. */
  lemma ExportedStep(site: Site, categories: seq<Category>, i: nat, stops: seq<nat>, last: nat,
                     data: seq<Record>, before: map<string, Csv>, after: map<string, Csv>,
                     openable: set<string>, isOpen: bool)
    requires DistinctKeys(categories) && i < |categories| && |stops| == i
    requires forall j :: 0 <= j < i ==> Exported(site, categories[j], stops[j], before, openable)
    requires StopsAt(site, categories[i].baseUrl, last)
    requires data == Accumulated(site, categories[i].baseUrl, last - 1)
    requires isOpen == (FileName(categories[i].key) in openable)
    requires after == if isOpen then before[FileName(categories[i].key) := CsvOf(data)] else before
    ensures forall j :: 0 <= j <= i ==> Exported(site, categories[j], (stops + [last])[j], after, openable)
  {
    var name := FileName(categories[i].key);
    forall j | 0 <= j <= i
      ensures Exported(site, categories[j], (stops + [last])[j], after, openable)
    {
      if j == i {
        ExportedFresh(site, categories[i], last, data, before, after, openable, isOpen);
      } else {
        if FileName(categories[j].key) == name {
          FileNameInjective(categories[j].key, categories[i].key);
        }
        assert (stops + [last])[j] == stops[j];
        ExportedKept(site, categories[j], stops[j], before, after, openable, name, isOpen, CsvOf(data));
      }
    }
  }

  lemma WrittenSnoc(categories: seq<Category>, i: nat, openable: set<string>)
    requires i < |categories|
    ensures Written(categories[..i + 1], openable) ==
      Written(categories[..i], openable) +
      (if FileName(categories[i].key) in openable then {FileName(categories[i].key)} else {})
  {
    var prefix := categories[..i + 1];
    assert forall j :: 0 <= j < i ==> prefix[j] == categories[..i][j];
  }

  /** One round of the batch: category `i` was crawled and exported, so the exports of
      categories `0..i` hold and every file outside those written so far is kept. */
  lemma BatchStep(site: Site, categories: seq<Category>, i: nat, stops: seq<nat>, last: nat,
                  orig: map<string, Csv>, before: map<string, Csv>, after: map<string, Csv>,
                  openable: set<string>)
    requires DistinctKeys(categories) && i < |categories| && |stops| == i
    requires forall j :: 0 <= j < i ==> Exported(site, categories[j], stops[j], before, openable)
    requires OthersKept(Written(categories[..i], openable), orig, before)
    requires StopsAt(site, categories[i].baseUrl, last)
    requires after ==
      if FileName(categories[i].key) in openable
      then before[FileName(categories[i].key) := CsvOf(Accumulated(site, categories[i].baseUrl, last - 1))]
      else before
    ensures forall j :: 0 <= j < i + 1 ==> Exported(site, categories[j], (stops + [last])[j], after, openable)
    ensures OthersKept(Written(categories[..i + 1], openable), orig, after)
  {
    var data := Accumulated(site, categories[i].baseUrl, last - 1);
    var isOpen := FileName(categories[i].key) in openable;
    ExportedStep(site, categories, i, stops, last, data, before, after, openable, isOpen);
    WrittenSnoc(categories, i, openable);
    OthersKeptStep(Written(categories[..i], openable), orig, before, after,
                   FileName(categories[i].key), isOpen, CsvOf(data));
  }

  /** The body of the `foreach` for one category: crawls it with a fresh accumulator, then
      writes its file when the file opens. Returns the page at which pagination stopped. */
  method ExportCategory(site: Site, category: Category, disk: Disk) returns (last: nat)
    modifies disk
    ensures StopsAt(site, category.baseUrl, last)
    ensures disk.files ==
      if FileName(category.key) in disk.openable
      then old(disk.files)[FileName(category.key) := CsvOf(Accumulated(site, category.baseUrl, last - 1))]
      else old(disk.files)
  {
    var data, stop, _, _ := CrawlCategory(site, category.baseUrl);
    var _ := disk.Export(category.key, data);
    last := stop;
  }

  /** The `foreach` over the categories: crawls each one, then exports what it accumulated.
      A category whose listing fetch fails or whose file cannot be opened does not stop the
      next one. `stops[i]` is the page at which category `i` stopped. */
  method RunBatch(site: Site, categories: seq<Category>, disk: Disk) returns (stops: seq<nat>)
    requires DistinctKeys(categories)
    modifies disk
    ensures |stops| == |categories|
    ensures forall i :: 0 <= i < |categories| ==>
      Exported(site, categories[i], stops[i], disk.files, disk.openable)
    ensures OthersKept(Written(categories, disk.openable), old(disk.files), disk.files)
  {
    stops := [];
    var i := 0;
    while i < |categories|
      invariant 0 <= i <= |categories|
      invariant |stops| == i
      invariant forall j :: 0 <= j < i ==> Exported(site, categories[j], stops[j], disk.files, disk.openable)
      invariant OthersKept(Written(categories[..i], disk.openable), old(disk.files), disk.files)
    {
      ghost var before := disk.files;
      var last := ExportCategory(site, categories[i], disk);
      BatchStep(site, categories, i, stops, last, old(disk.files), before, disk.files, disk.openable);
      stops := stops + [last];
      i := i + 1;
    }
    assert categories[..i] == categories;
  }

  /** The whole script: the batch over the fixed category map. */
  method Scrape(site: Site, disk: Disk) returns (stops: seq<nat>)
    modifies disk
    ensures |stops| == |Categories|
    ensures forall i :: 0 <= i < |Categories| ==>
      Exported(site, Categories[i], stops[i], disk.files, disk.openable)
    ensures OthersKept(Written(Categories, disk.openable), old(disk.files), disk.files)
  {
    stops := RunBatch(site, Categories, disk);
  }
}
