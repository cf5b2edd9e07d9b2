/**
 The `MedicalDataProcessor` class: it collects the frames of every accepted
 sheet, concatenates them, rewrites the plan column with the rule table in
 place, and writes one CSV per `Source`.
 */
module Processor {
  import opened Wrappers
  import opened Mapping
  import opened Files
  import opened Partition

  /**
   A record after `apply_mapping`: only the plan cell changes. It becomes
   text, either the cell's own text or one rule's whole replacement.
   */
  function NormalizeRecord(rules: seq<Rule>, r: Record): (n: Record)
    ensures n.source == r.source && n.others == r.others
    ensures n.plan.Str?
    ensures n.plan.text == CellText(r.plan) || exists j :: 0 <= j < |rules| && n.plan.text == rules[j].replacement
  {
    r.(plan := Str(Cascade(rules, CellText(r.plan))))
  }

  /** One more rule of the table applies one more step to the plan text. */
  lemma NormalizeRecordStep(rules: seq<Rule>, i: nat, r: Record)
    requires i < |rules|
    ensures NormalizeRecord(rules[..i + 1], r) ==
            r.(plan := Str(Step(rules[i], CellText(NormalizeRecord(rules[..i], r).plan))))
  {
    assert rules[..i + 1][..i] == rules[..i];
  }

  /** Every record of a frame normalised on its own: same records, same order, only plan cells changed. */
  function Normalized(rules: seq<Rule>, rs: seq<Record>): (out: seq<Record>)
    ensures |out| == |rs|
    ensures forall k :: 0 <= k < |rs| ==> out[k].source == rs[k].source && out[k].others == rs[k].others && out[k].plan.Str?
  {
    seq(|rs|, k requires 0 <= k < |rs| => NormalizeRecord(rules, rs[k]))
  }

  /** `pd.concat` over frames that share one schema: their rows, frame after frame, and nothing else. */
  function Concat(frames: seq<seq<Record>>): (c: seq<Record>)
    ensures forall r :: r in c <==> exists i :: 0 <= i < |frames| && r in frames[i]
  {
    if frames == [] then []
    else
      var front := frames[..|frames| - 1];
      assert forall i :: 0 <= i < |front| ==> front[i] == frames[i];
      Concat(front) + frames[|frames| - 1]
  }

  /** With an empty table the only change is the conversion of the plan cell to text. */
  lemma EmptyTableOnlyConverts(rs: seq<Record>)
    ensures forall k :: 0 <= k < |rs| ==> Normalized([], rs)[k] == rs[k].(plan := Str(CellText(rs[k].plan)))
    ensures forall k :: 0 <= k < |rs| && rs[k].plan.Str? ==> Normalized([], rs)[k] == rs[k]
  {
  }

  /** A missing plan is matched as the text "nan", so a "nan" pattern rewrites it. */
  lemma MissingPlanMatchesNan(to: string, source: string, others: map<string, Cell>)
    ensures NormalizeRecord([Rule("nan", to)], Record(NaN, source, others)).plan == Str(to)
  {
    assert [Rule("nan", to)][..0] == [];
    var low := Text.Lower("nan");
    assert low[0] == 'n' && low[1] == 'a' && low[2] == 'n';
    assert low[0..3] == "nan";
    assert Text.OccursAt("nan", low, 0);
    assert Matches(Rule("nan", to), CellText(NaN));
    assert Cascade([Rule("nan", to)], CellText(NaN)) == Step(Rule("nan", to), CellText(NaN));
  }

  lemma NormalizedConcat(rules: seq<Rule>, xs: seq<Record>, ys: seq<Record>)
    ensures Normalized(rules, xs + ys) == Normalized(rules, xs) + Normalized(rules, ys)
  {
  }

  /** The rows of `x`'s own tag, as a zero- or one-record list. */
  function Own(x: Record, s: string): seq<Record> {
    if x.source == s then [x] else []
  }

  /** Filtering a normalised frame with one more record. */
  lemma NormalizedBySourceSnoc(rules: seq<Rule>, front: seq<Record>, x: Record, s: string)
    ensures BySource(Normalized(rules, front + [x]), s) == BySource(Normalized(rules, front), s) + Normalized(rules, Own(x, s))
  {
    var nx := NormalizeRecord(rules, x);
    NormalizedConcat(rules, front, [x]);
    BySourceSnoc(Normalized(rules, front), nx, s);
  }

  /** Normalising the rows of one tag, with one more record. */
  lemma BySourceNormalizedSnoc(rules: seq<Rule>, front: seq<Record>, x: Record, s: string)
    ensures Normalized(rules, BySource(front + [x], s)) == Normalized(rules, BySource(front, s)) + Normalized(rules, Own(x, s))
  {
    BySourceSnoc(front, x, s);
    NormalizedConcat(rules, BySource(front, s), Own(x, s));
  }

  /** Normalising commutes with the split by `Source`: records are processed independently of each other. */
  lemma {:induction false} NormalizeCommutesWithSplit(rules: seq<Rule>, rs: seq<Record>, s: string)
    ensures BySource(Normalized(rules, rs), s) == Normalized(rules, BySource(rs, s))
  {
    if rs != [] {
      var front := rs[..|rs| - 1];
      var x := rs[|rs| - 1];
      assert rs == front + [x];
      NormalizeCommutesWithSplit(rules, front, s);
      NormalizedBySourceSnoc(rules, front, x, s);
      BySourceNormalizedSnoc(rules, front, x, s);
    }
  }

  /** The `Source` tags, and so the output file names, are the same before and after normalising. */
  lemma {:induction false} NormalizeKeepsSources(rules: seq<Rule>, rs: seq<Record>)
    ensures UniqueSources(Normalized(rules, rs)) == UniqueSources(rs)
  {
    if rs != [] {
      var front := rs[..|rs| - 1];
      var out := Normalized(rules, rs);
      assert out[..|out| - 1] == Normalized(rules, front);
      NormalizeKeepsSources(rules, front);
    }
  }

  class MedicalDataProcessor {
    const folderPath: string
    const mappingFile: string
    const outputFolder: string
    /** The frames collected so far, one per accepted sheet. */
    var dfList: seq<seq<Record>>

    constructor (folderPath: string, mappingFile: string, outputFolder: string)
      ensures this.folderPath == folderPath && this.mappingFile == mappingFile
      ensures this.outputFolder == outputFolder && dfList == []
    {
      this.folderPath := folderPath;
      this.mappingFile := mappingFile;
      this.outputFolder := outputFolder;
      dfList := [];
    }

    /**
     The inner loop of `process_files`, over the files of one directory of
     the walk: every accepted sheet's rows, tagged with the base name of the
     directory, are appended to `dfList` in file order.
     */
    method LoadDirectory(root: string, files: seq<SheetFile>)
      modifies this`dfList
      ensures dfList == old(dfList) + LoadedDir(root, files)
    {
      var j := 0;
      while j < |files|
        invariant 0 <= j <= |files|
        invariant dfList == old(dfList) + LoadedDir(root, files[..j])
      {
        var file := files[j];
        if Accepted(file.name) {
          dfList := dfList + [Tag(file.rows, Basename(root))];
        }
        assert files[..j + 1] == files[..j] + [file];
        LoadedDirConcat(root, files[..j], [file]);
        LoadedDirOne(root, file);
        j := j + 1;
      }
      assert files[..j] == files;
    }

    /**
     `process_files`: `walk` is what walking `folderPath` yields, each file
     with the rows reading it gives. Every accepted sheet's rows, tagged with
     the base name of their directory, are appended to `dfList`.
     */
    method ProcessFiles(walk: seq<WalkEntry>)
      modifies this`dfList
      ensures dfList == old(dfList) + Loaded(walk)
    {
      var i := 0;
      while i < |walk|
        invariant 0 <= i <= |walk|
        invariant dfList == old(dfList) + Loaded(walk[..i])
      {
        var entry := walk[i];
        LoadDirectory(entry.root, entry.files);
        assert walk[..i + 1] == walk[..i] + [entry];
        LoadedSnoc(walk[..i], entry);
        i := i + 1;
      }
      assert walk[..i] == walk;
    }

    /**
     One pass of the rule loop of `apply_mapping` (`col = col.apply(lambda x:
     ...)`, lib/transform.py:38-43) over plans that are already text: every
     plan in which the rule's pattern occurs, lower-cased, becomes the rule's
     replacement; every other record is left as it was.
     */
    method ApplyRule(frame: array<Record>, rule: Rule)
      requires forall m :: 0 <= m < frame.Length ==> frame[m].plan.Str?
      modifies frame
      ensures forall m :: 0 <= m < frame.Length ==> frame[m].plan.Str?
      ensures forall m :: 0 <= m < frame.Length ==>
                frame[m] == old(frame[m]).(plan := Str(Step(rule, old(frame[m]).plan.text)))
    {
      var k := 0;
      while k < frame.Length
        invariant 0 <= k <= frame.Length
        invariant forall m :: 0 <= m < k ==> frame[m] == old(frame[m]).(plan := Str(Step(rule, old(frame[m]).plan.text)))
        invariant forall m :: k <= m < frame.Length ==> frame[m] == old(frame[m])
      {
        frame[k] := frame[k].(plan := Str(Step(rule, frame[k].plan.text)));
        k := k + 1;
      }
    }

    /**
     `apply_mapping`: the plan column is first converted to text, then each
     rule is applied to the whole column, in table order.
     */
    method ApplyMapping(frame: array<Record>, rules: seq<Rule>)
      modifies frame
      ensures frame[..] == Normalized(rules, old(frame[..]))
    {
      ghost var orig := frame[..];
      var k := 0;
      while k < frame.Length
        invariant 0 <= k <= frame.Length
        invariant forall m :: 0 <= m < k ==> frame[m] == NormalizeRecord([], orig[m])
        invariant forall m :: k <= m < frame.Length ==> frame[m] == orig[m]
      {
        frame[k] := frame[k].(plan := Str(CellText(frame[k].plan)));
        k := k + 1;
      }
      var i := 0;
      while i < |rules|
        invariant 0 <= i <= |rules|
        invariant forall m :: 0 <= m < frame.Length ==> frame[m] == NormalizeRecord(rules[..i], orig[m])
      {
        ApplyRule(frame, rules[i]);
        forall m | 0 <= m < frame.Length ensures frame[m] == NormalizeRecord(rules[..i + 1], orig[m]) {
          NormalizeRecordStep(rules, i, orig[m]);
        }
        i := i + 1;
      }
      assert rules[..i] == rules;
      assert forall m :: 0 <= m < frame.Length ==> frame[m] == Normalized(rules, orig)[m];
    }

    /** `save_files`: one CSV per distinct `Source`, in order of first appearance, holding that source's rows. */
    method SaveFiles(frame: array<Record>) returns (written: seq<CsvFile>)
      ensures written == CsvFiles(frame[..])
    {
      var rows := frame[..];
      var sources := UniqueSources(rows);
      written := [];
      var j := 0;
      while j < |sources|
        invariant 0 <= j <= |sources|
        invariant written == CsvFiles(rows)[..j]
      {
        var source := sources[j];
        CsvFileAt(rows, j);
        written := written + [CsvFile(source + ".csv", BySource(rows, source))];
        j := j + 1;
      }
    }

    /**
     `run`: load the sheets, concatenate them, normalise the plan column and
     write the per-source files. Concatenating no frames at all fails, which
     is `None` here.
     */
    method Run(walk: seq<WalkEntry>, rules: seq<Rule>) returns (written: Option<seq<CsvFile>>)
      modifies this`dfList
      ensures dfList == old(dfList) + Loaded(walk)
      ensures written == if dfList == [] then None else Some(CsvFiles(Normalized(rules, Concat(dfList))))
    {
      ProcessFiles(walk);
      if dfList == [] {
        return None;
      }
      var rows := Concat(dfList);
      var frame := new Record[|rows|](k requires 0 <= k < |rows| => rows[k]);
      assert frame[..] == rows;
      ApplyMapping(frame, rules);
      var files := SaveFiles(frame);
      written := Some(files);
    }
  }
}
