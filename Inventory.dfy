/** The inventory builder: the files of one directory, lock files left out,
    tabulated as three columns Sl_No, Types and Filenames. Writing the
    spreadsheet is not modelled; the columns are. */
module Inventory {
  import opened PathNames
  import opened FileSystem

  /** A listed name and whether os.path.isfile holds for it. */
  datatype DirEntry = DirEntry(name: string, isFile: bool)

  /** The three columns of the spreadsheet, in column order. */
  datatype Table = Table(slNo: seq<int>, types: seq<string>, filenames: seq<string>)

  /** The spreadsheet's file name, written into the scanned directory. */
  const OutputFile := "file_list.xlsx"

  /** An entry stays in the inventory when it is a regular file whose name
      does not end in ".lock" (case-sensitive). */
  predicate Kept(e: DirEntry) {
    e.isFile && !EndsWith(e.name, ".lock")
  }

  /** The names of the kept entries, in listing order. */
  function KeptNames(listing: seq<DirEntry>): (names: seq<string>)
    ensures |names| <= |listing|
    ensures forall k :: 0 <= k < |names| ==> !EndsWith(names[k], ".lock")
  {
    if listing == [] then []
    else (if Kept(listing[0]) then [listing[0].name] else []) + KeptNames(listing[1..])
  }

  /** Filtering keeps listing order: the kept names of a + b are those of a, then those of b. */
  lemma {:induction false} KeptNamesAppend(a: seq<DirEntry>, b: seq<DirEntry>)
    ensures KeptNames(a + b) == KeptNames(a) + KeptNames(b)
  {
    if a == [] {
      assert a + b == b;
    } else {
      assert (a + b)[0] == a[0] && (a + b)[1..] == a[1..] + b;
      KeptNamesAppend(a[1..], b);
    }
  }

  /** A name is kept exactly when some listed entry with that name is kept. */
  lemma {:induction false} KeptNamesMember(listing: seq<DirEntry>, n: string)
    ensures n in KeptNames(listing) <==> exists e :: e in listing && e.name == n && Kept(e)
  {
    if listing != [] {
      KeptNamesMember(listing[1..], n);
      assert forall e :: e in listing <==> e == listing[0] || e in listing[1..];
    }
  }

  /** The Sl_No column: 1, 2, ..., n. */
  function Numbering(n: nat): (r: seq<int>)
    ensures |r| == n
    ensures forall i :: 0 <= i < n ==> r[i] == i + 1
  {
    if n == 0 then [] else Numbering(n - 1) + [n]
  }

  /** The Types column: the extension of each name, "" when it has none. */
  function Extensions(names: seq<string>): (types: seq<string>)
    ensures |types| == |names|
    ensures forall i :: 0 <= i < |names| ==> SplitExt(names[i]).0 + types[i] == names[i]
  {
    seq(|names|, i requires 0 <= i < |names| => Ext(names[i]))
  }

  /** The table built from a listing: the Filenames column is the kept names
      in listing order, Sl_No numbers the rows from 1, and Types holds each
      file's extension; all three columns have one row per kept file. */
  function BuildTable(listing: seq<DirEntry>): (t: Table)
    ensures t.filenames == KeptNames(listing)
    ensures |t.slNo| == |t.types| == |t.filenames|
    ensures forall i :: 0 <= i < |t.filenames| ==>
      t.slNo[i] == i + 1 && t.types[i] == Ext(t.filenames[i])
  {
    var files := KeptNames(listing);
    Table(Numbering(|files|), Extensions(files), files)
  }

  /** Where the table is written: inside the scanned directory, under a name
      that the builder's own filter keeps when it is listed as a file. */
  function TablePath(dir: string): (p: Path)
    ensures p.dir == dir
    ensures Kept(DirEntry(p.name, true))
  {
    assert OutputFile[|OutputFile| - 5..] != ".lock";
    Path(dir, OutputFile)
  }

  /** The number of regular, non-lock files in a listing. */
  function CountKept(listing: seq<DirEntry>): nat {
    if listing == [] then 0 else (if Kept(listing[0]) then 1 else 0) + CountKept(listing[1..])
  }

  /** The table has one row per regular, non-lock file listed. */
  lemma {:induction false} RowCount(listing: seq<DirEntry>)
    ensures |BuildTable(listing).filenames| == CountKept(listing)
  {
    if listing != [] {
      RowCount(listing[1..]);
    }
  }

  /** The table written by an earlier run into the same directory is listed
      as a regular file the next time: it appears in the next inventory. */
  lemma EarlierOutputListed(dir: string, listing: seq<DirEntry>)
    requires DirEntry(TablePath(dir).name, true) in listing
    ensures TablePath(dir).name in BuildTable(listing).filenames
  {
    KeptNamesMember(listing, TablePath(dir).name);
  }

  /** "report.tif" is listed with type ".tif". */
  lemma ReportExample(name: string)
    requires name == "report.tif"
    ensures BuildTable([DirEntry(name, true)]) == Table([1], [".tif"], [name])
  {
    assert !EndsWith(name, ".lock") by {
      assert name[|name| - 5..] != ".lock";
    }
    assert name == "report" + ".tif";
    assert "report"[0] != '.';
    SplitExtUnique(name, "report", ".tif");
    assert KeptNames([DirEntry(name, true)]) == [name];
  }
}
