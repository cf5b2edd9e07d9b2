/**
 Records of the combined frame, and what `process_files` does with the
 files a directory walk yields: it keeps the files whose name ends in
 `.xlsx` and does not start with "~" (which skips Excel lock files
 "~$...", and every other name starting with "~" too) and tags every row
 with the name of the directory the file sits in.
 */
module Files {
  import opened Text
  import opened Mapping

  const SourceColumn := "Source"

  /** A row as read from a sheet: the plan cell and every other column. */
  datatype Row = Row(plan: Cell, others: map<string, Cell>)

  /** A row of the combined frame: the plan cell, the `Source` tag and every other column. */
  datatype Record = Record(plan: Cell, source: string, others: map<string, Cell>)

  /** One directory of the walk: its path and its files, each with the rows reading it yields. */
  datatype SheetFile = SheetFile(name: string, rows: seq<Row>)
  datatype WalkEntry = WalkEntry(root: string, files: seq<SheetFile>)

  /** The file-name filter: the name ends in ".xlsx" and does not start with "~". */
  function Accepted(name: string): (r: bool)
    ensures r <==> |name| >= 5 && name[|name| - 5..] == ".xlsx" && name[0] != '~'
  {
    EndsWith(name, ".xlsx") && !StartsWith(name, "~")
  }

  /** A name is accepted exactly when it is some stem plus ".xlsx" and the stem does not start with "~". */
  lemma AcceptedStem(stem: string)
    ensures Accepted(stem + ".xlsx") <==> (stem == [] || stem[0] != '~')
  {
    var name := stem + ".xlsx";
    assert name[|name| - 5..] == ".xlsx";
    if stem != [] {
      assert name[..1] == [stem[0]];
    } else {
      assert name[..1] == ".";
    }
  }

  /** Every accepted name has that form, so the lemma above covers all names. */
  lemma AcceptedHasStem(name: string)
    requires Accepted(name)
    ensures |name| >= 5 && name == name[..|name| - 5] + ".xlsx"
    ensures var stem := name[..|name| - 5]; stem == [] || stem[0] != '~'
  {
    var stem := name[..|name| - 5];
    assert name == stem + name[|name| - 5..];
    AcceptedStem(stem);
  }

  /** Lock files, other extensions and upper-case extensions are skipped. */
  lemma RejectedNames(n: string)
    ensures !Accepted("~" + n)
    ensures !Accepted(n + ".xls")
    ensures !Accepted(n + ".XLSX")
  {
    assert ("~" + n)[..1] == "~";
    var a := n + ".xls";
    if |a| >= 5 {
      assert a[|a| - 1] == 's' && a[|a| - 5..][4] == a[|a| - 1];
    }
    var b := n + ".XLSX";
    assert b[|b| - 5..][1] == 'X';
  }

  /** A suffix of `s` followed by `c` is a suffix of `s + [c]`, with the same character before it. */
  lemma SuffixSnoc(s: string, b: string, c: char)
    requires EndsWith(s, b)
    ensures EndsWith(s + [c], b + [c])
    ensures |b| < |s| ==> (s + [c])[|s| - |b| - 1] == s[|s| - |b| - 1]
  {
    assert (s + [c])[|s| - |b|..] == s[|s| - |b|..] + [c];
  }

  /** POSIX `os.path.basename`: the part of the path after its last '/'. */
  function Basename(p: string): (b: string)
    ensures '/' !in b
    ensures EndsWith(p, b)
    ensures |b| < |p| ==> p[|p| - |b| - 1] == '/'
  {
    if p == [] then []
    else if p[|p| - 1] == '/' then []
    else
      var front := p[..|p| - 1];
      var c := p[|p| - 1];
      assert p == front + [c];
      var b := Basename(front);
      SuffixSnoc(front, b, c);
      b + [c]
  }

  /** `df["Source"] = source`: every row of the sheet, tagged; the frame keeps its number of rows. */
  function Tag(rows: seq<Row>, source: string): (rs: seq<Record>)
    ensures |rs| == |rows|
  {
    seq(|rows|, k requires 0 <= k < |rows| => Record(rows[k].plan, source, rows[k].others - {SourceColumn}))
  }

  /** Tagging keeps the rows and their cells, and the tag overwrites any `Source` column the sheet had. */
  lemma TagRows(rows: seq<Row>, source: string)
    ensures var rs := Tag(rows, source);
            |rs| == |rows| &&
            (forall k :: 0 <= k < |rs| ==> rs[k].source == source) &&
            (forall k :: 0 <= k < |rs| ==> rs[k].plan == rows[k].plan && rs[k].others == rows[k].others - {SourceColumn})
  {
  }

  /** The frames loaded from one directory, in file order. */
  function LoadedDir(root: string, files: seq<SheetFile>): (r: seq<seq<Record>>)
    ensures |r| <= |files|
  {
    if files == [] then []
    else
      var f := files[|files| - 1];
      LoadedDir(root, files[..|files| - 1]) + (if Accepted(f.name) then [Tag(f.rows, Basename(root))] else [])
  }

  /** No file of any directory of the walk passes the filter. */
  predicate NoneAccepted(walk: seq<WalkEntry>) {
    forall e, f :: e in walk && f in e.files ==> !Accepted(f.name)
  }

  /** The number of files a walk lists, over all its directories. */
  function FileCount(walk: seq<WalkEntry>): nat {
    if walk == [] then 0 else FileCount(walk[..|walk| - 1]) + |walk[|walk| - 1].files|
  }

  /** The frames loaded from a whole walk, in walk order: at most one per file listed. */
  function Loaded(walk: seq<WalkEntry>): (r: seq<seq<Record>>)
    ensures |r| <= FileCount(walk)
  {
    if walk == [] then []
    else
      var e := walk[|walk| - 1];
      Loaded(walk[..|walk| - 1]) + LoadedDir(e.root, e.files)
  }

  /** A walk in which no file passes the filter loads nothing. */
  lemma {:induction false} LoadedNoneAccepted(walk: seq<WalkEntry>)
    requires NoneAccepted(walk)
    ensures Loaded(walk) == []
  {
    if walk != [] {
      var e := walk[|walk| - 1];
      assert forall x :: x in walk[..|walk| - 1] ==> x in walk;
      LoadedNoneAccepted(walk[..|walk| - 1]);
      LoadedDirFrames(e.root, e.files);
    }
  }

  /** A single file yields its tagged rows when accepted and nothing otherwise. */
  lemma LoadedDirOne(root: string, f: SheetFile)
    ensures LoadedDir(root, [f]) == if Accepted(f.name) then [Tag(f.rows, Basename(root))] else []
  {
    assert [f][..0] == [];
  }

  /** Loading two runs of files is loading each, in order: every accepted file is loaded, in file order. */
  lemma {:induction false} LoadedDirConcat(root: string, f1: seq<SheetFile>, f2: seq<SheetFile>)
    ensures LoadedDir(root, f1 + f2) == LoadedDir(root, f1) + LoadedDir(root, f2)
    decreases |f2|
  {
    if f2 == [] {
      assert f1 + f2 == f1;
    } else {
      var front := f2[..|f2| - 1];
      assert (f1 + f2)[..|f1 + f2| - 1] == f1 + front;
      LoadedDirConcat(root, f1, front);
    }
  }

  /** A single directory yields what its files yield. */
  lemma LoadedOne(e: WalkEntry)
    ensures Loaded([e]) == LoadedDir(e.root, e.files)
  {
    assert [e][..0] == [];
  }

  /** One more directory at the end of the walk adds its frames at the end. */
  lemma LoadedSnoc(w: seq<WalkEntry>, e: WalkEntry)
    ensures Loaded(w + [e]) == Loaded(w) + LoadedDir(e.root, e.files)
  {
    assert (w + [e])[..|w|] == w;
  }

  /** Loading two parts of a walk is loading each, in walk order. */
  lemma {:induction false} LoadedConcat(w1: seq<WalkEntry>, w2: seq<WalkEntry>)
    ensures Loaded(w1 + w2) == Loaded(w1) + Loaded(w2)
    decreases |w2|
  {
    if w2 == [] {
      assert w1 + w2 == w1;
    } else {
      var front := w2[..|w2| - 1];
      var e := w2[|w2| - 1];
      var d := LoadedDir(e.root, e.files);
      assert w1 + w2 == (w1 + front) + [e];
      calc {
        Loaded(w1 + w2);
        { LoadedSnoc(w1 + front, e); }
        Loaded(w1 + front) + d;
        { LoadedConcat(w1, front); }
        Loaded(w1) + Loaded(front) + d;
        { LoadedSnoc(front, e); assert front + [e] == w2; }
        Loaded(w1) + Loaded(w2);
      }
    }
  }

  /** Every frame loaded from a directory is one accepted file's rows, tagged with the directory's base name. */
  lemma {:induction false} LoadedDirFrames(root: string, files: seq<SheetFile>)
    ensures |LoadedDir(root, files)| <= |files|
    ensures forall b :: b in LoadedDir(root, files) ==>
              exists f :: f in files && Accepted(f.name) && b == Tag(f.rows, Basename(root))
    ensures (forall f :: f in files ==> !Accepted(f.name)) ==> LoadedDir(root, files) == []
  {
    if files != [] {
      var front := files[..|files| - 1];
      LoadedDirFrames(root, front);
      assert forall f :: f in front ==> f in files;
    }
  }

  /** Every loaded row's `Source` tag is a single path component, so "<source>.csv" is a plain file name. */
  lemma {:induction false} LoadedSourcesHaveNoSlash(walk: seq<WalkEntry>)
    ensures forall b, r :: b in Loaded(walk) && r in b ==> '/' !in r.source
  {
    if walk != [] {
      var e := walk[|walk| - 1];
      LoadedSourcesHaveNoSlash(walk[..|walk| - 1]);
      LoadedDirFrames(e.root, e.files);
      forall b, r | b in LoadedDir(e.root, e.files) && r in b ensures '/' !in r.source {
        var f :| f in e.files && Accepted(f.name) && b == Tag(f.rows, Basename(e.root));
        TagRows(f.rows, Basename(e.root));
      }
    }
  }
}
