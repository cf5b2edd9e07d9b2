/**
 What `save_files` writes: one CSV per distinct `Source` value, in order of
 first appearance (`unique()`), each holding the rows with that tag
 (`final_df[final_df["Source"] == source]`) in frame order.
 */
module Partition {
  import opened Files

  datatype Group = Group(source: string, rows: seq<Record>)
  datatype CsvFile = CsvFile(name: string, rows: seq<Record>)

  /** The records tagged `s`, in frame order. */
  function BySource(rs: seq<Record>, s: string): (g: seq<Record>)
    ensures |g| <= |rs|
    ensures forall r :: r in g ==> r in rs && r.source == s
    ensures forall r :: r in rs && r.source == s ==> r in g
  {
    if rs == [] then []
    else
      var last := rs[|rs| - 1];
      BySource(rs[..|rs| - 1], s) + (if last.source == s then [last] else [])
  }

  /** Filtering commutes with concatenation: the order of the frame is kept inside each group. */
  lemma {:induction false} BySourceConcat(xs: seq<Record>, ys: seq<Record>, s: string)
    ensures BySource(xs + ys, s) == BySource(xs, s) + BySource(ys, s)
    decreases |ys|
  {
    if ys == [] {
      assert xs + ys == xs;
    } else {
      var front := ys[..|ys| - 1];
      assert (xs + ys)[..|xs + ys| - 1] == xs + front;
      BySourceConcat(xs, front, s);
    }
  }

  predicate Distinct(ss: seq<string>) {
    forall i, j :: 0 <= i < j < |ss| ==> ss[i] != ss[j]
  }

  /** Some record of `rs` carries the tag `s`. */
  ghost predicate HasSource(rs: seq<Record>, s: string) {
    exists k :: 0 <= k < |rs| && rs[k].source == s
  }

  /** `final_df["Source"].unique()`: every tag once, in order of first appearance. */
  function UniqueSources(rs: seq<Record>): (u: seq<string>)
    ensures Distinct(u)
    ensures forall s :: s in u <==> HasSource(rs, s)
    ensures |u| <= |rs|
  {
    if rs == [] then []
    else
      var front := rs[..|rs| - 1];
      var u := UniqueSources(front);
      var s := rs[|rs| - 1].source;
      assert forall t :: HasSource(front, t) ==> HasSource(rs, t) by {
        forall t | HasSource(front, t) ensures HasSource(rs, t) {
          var k :| 0 <= k < |front| && front[k].source == t;
          assert rs[k] == front[k];
        }
      }
      assert forall t :: HasSource(rs, t) ==> t == s || HasSource(front, t) by {
        forall t | HasSource(rs, t) && t != s ensures HasSource(front, t) {
          var k :| 0 <= k < |rs| && rs[k].source == t;
          assert front[k] == rs[k];
        }
      }
      assert HasSource(rs, s) by { assert rs[|rs| - 1].source == s; }
      if s in u then u else u + [s]
  }

  /** Some record tagged `a` comes before every record tagged `b`. */
  ghost predicate AppearsFirst(rs: seq<Record>, a: string, b: string) {
    exists k :: 0 <= k < |rs| && rs[k].source == a && forall m :: 0 <= m <= k ==> rs[m].source != b
  }

  /** A witness in a prefix of the frame is a witness in the whole frame. */
  lemma AppearsFirstSnoc(front: seq<Record>, x: Record, a: string, b: string)
    requires AppearsFirst(front, a, b)
    ensures AppearsFirst(front + [x], a, b)
  {
    var rs := front + [x];
    var k :| 0 <= k < |front| && front[k].source == a && forall m :: 0 <= m <= k ==> front[m].source != b;
    assert rs[k] == front[k];
    assert forall m :: 0 <= m <= k ==> rs[m] == front[m];
  }

  /** Every tag of `u` shows up in `rs` before any row of a tag listed after it. */
  ghost predicate InFirstAppearanceOrder(rs: seq<Record>, u: seq<string>) {
    forall i, j :: 0 <= i < j < |u| ==> AppearsFirst(rs, u[i], u[j])
  }

  /** `unique()` lists the tags in order of first appearance. */
  lemma {:induction false} UniqueSourcesOrder(rs: seq<Record>)
    ensures InFirstAppearanceOrder(rs, UniqueSources(rs))
  {
    if rs != [] {
      var front := rs[..|rs| - 1];
      var x := rs[|rs| - 1];
      assert rs == front + [x];
      var u0 := UniqueSources(front);
      var u := UniqueSources(rs);
      UniqueSourcesOrder(front);
      assert u == u0 || u == u0 + [x.source];
      assert forall t :: 0 <= t < |u0| ==> u[t] == u0[t];
      forall i, j | 0 <= i < j < |u| ensures AppearsFirst(rs, u[i], u[j]) {
        if j < |u0| {
          assert AppearsFirst(front, u0[i], u0[j]);
          AppearsFirstSnoc(front, x, u[i], u[j]);
        } else {
          assert u == u0 + [x.source] && u[j] == x.source && u[i] == u0[i];
          assert HasSource(front, u[i]);
          var k :| 0 <= k < |front| && front[k].source == u[i];
          assert !HasSource(front, x.source);
          assert forall m :: 0 <= m <= k ==> rs[m] == front[m];
        }
      }
    }
  }

  /** The groups for the tags `ss`, in that order. */
  function GroupsFor(rs: seq<Record>, ss: seq<string>): (gs: seq<Group>)
    ensures |gs| == |ss|
    ensures forall j :: 0 <= j < |ss| ==> gs[j] == Group(ss[j], BySource(rs, ss[j]))
  {
    if ss == [] then []
    else GroupsFor(rs, ss[..|ss| - 1]) + [Group(ss[|ss| - 1], BySource(rs, ss[|ss| - 1]))]
  }

  /** A tag some record carries has a non-empty group. */
  lemma BySourcePresent(rs: seq<Record>, s: string)
    requires HasSource(rs, s)
    ensures BySource(rs, s) != []
  {
    var k :| 0 <= k < |rs| && rs[k].source == s;
    assert rs[k] in rs;
  }

  /** The frame split by `Source`: one non-empty group per tag, holding only rows of that tag. */
  function Partition(rs: seq<Record>): (p: seq<Group>)
    ensures forall i, j :: 0 <= i < j < |p| ==> p[i].source != p[j].source
    ensures forall j :: 0 <= j < |p| ==> p[j].rows != []
    ensures forall j, r :: 0 <= j < |p| && r in p[j].rows ==> r in rs && r.source == p[j].source
    ensures forall r :: r in rs ==> exists j :: 0 <= j < |p| && r in p[j].rows
  {
    var u := UniqueSources(rs);
    var p := GroupsFor(rs, u);
    forall j | 0 <= j < |p| ensures p[j].rows != [] {
      BySourcePresent(rs, u[j]);
    }
    forall r | r in rs ensures exists j :: 0 <= j < |p| && r in p[j].rows {
      var k :| 0 <= k < |rs| && rs[k] == r;
      assert HasSource(rs, r.source);
      var j :| 0 <= j < |u| && u[j] == r.source;
      assert r in p[j].rows;
    }
    p
  }

  /** All rows of a list of groups, group after group. */
  function Flatten(gs: seq<Group>): seq<Record> {
    if gs == [] then [] else Flatten(gs[..|gs| - 1]) + gs[|gs| - 1].rows
  }

  /** Adding a tag at the end adds its group at the end. */
  lemma GroupsForSnoc(rs: seq<Record>, ss: seq<string>, s: string)
    ensures Flatten(GroupsFor(rs, ss + [s])) == Flatten(GroupsFor(rs, ss)) + BySource(rs, s)
  {
    assert (ss + [s])[..|ss|] == ss;
  }

  /** A tag no record carries has an empty group. */
  lemma BySourceAbsent(rs: seq<Record>, s: string)
    requires !HasSource(rs, s)
    ensures BySource(rs, s) == []
  {
  }

  /** The group of `s` grows by `x` exactly when `x` carries the tag `s`. */
  lemma BySourceSnoc(rs: seq<Record>, x: Record, s: string)
    ensures BySource(rs + [x], s) == BySource(rs, s) + (if x.source == s then [x] else [])
  {
    BySourceConcat(rs, [x], s);
    assert [x][..0] == [];
  }

  /** The last group of a non-empty tag list, split off. */
  lemma LastGroup(rs: seq<Record>, ss: seq<string>)
    requires ss != []
    ensures Flatten(GroupsFor(rs, ss)) == Flatten(GroupsFor(rs, ss[..|ss| - 1])) + BySource(rs, ss[|ss| - 1])
  {
    assert ss == ss[..|ss| - 1] + [ss[|ss| - 1]];
    GroupsForSnoc(rs, ss[..|ss| - 1], ss[|ss| - 1]);
  }

  /** The last tag of a distinct list is not among the others. */
  lemma DistinctLast(ss: seq<string>, t: string)
    requires Distinct(ss) && ss != []
    ensures Distinct(ss[..|ss| - 1])
    ensures t in ss <==> t in ss[..|ss| - 1] || t == ss[|ss| - 1]
    ensures t == ss[|ss| - 1] ==> t !in ss[..|ss| - 1]
  {
    assert ss == ss[..|ss| - 1] + [ss[|ss| - 1]];
  }

  /** Appending one record adds it to the group of its own tag and to no other. */
  lemma {:induction false} GatherSnoc(rs: seq<Record>, x: Record, ss: seq<string>)
    requires Distinct(ss)
    ensures multiset(Flatten(GroupsFor(rs + [x], ss))) ==
            multiset(Flatten(GroupsFor(rs, ss))) + (if x.source in ss then multiset{x} else multiset{})
  {
    if ss != [] {
      var front := ss[..|ss| - 1];
      var s := ss[|ss| - 1];
      DistinctLast(ss, x.source);
      GatherSnoc(rs, x, front);
      LastGroup(rs + [x], ss);
      LastGroup(rs, ss);
      BySourceSnoc(rs, x, s);
    }
  }

  /** `unique()` of a frame with one more record: its tag is added at the end unless already listed. */
  lemma UniqueSourcesSnoc(front: seq<Record>, x: Record)
    ensures var u := UniqueSources(front);
            UniqueSources(front + [x]) == if x.source in u then u else u + [x.source]
  {
    assert (front + [x])[..|front|] == front;
  }

  /** A record whose tag has a group already joins that group. */
  lemma CoverSnocListed(front: seq<Record>, x: Record, u: seq<string>)
    requires Distinct(u) && x.source in u
    requires multiset(Flatten(GroupsFor(front, u))) == multiset(front)
    ensures multiset(Flatten(GroupsFor(front + [x], u))) == multiset(front + [x])
  {
    GatherSnoc(front, x, u);
  }

  /** A record with a new tag gets a new group of its own at the end. */
  lemma CoverSnocNew(front: seq<Record>, x: Record, u: seq<string>)
    requires Distinct(u) && x.source !in u && !HasSource(front, x.source)
    requires multiset(Flatten(GroupsFor(front, u))) == multiset(front)
    ensures multiset(Flatten(GroupsFor(front + [x], u + [x.source]))) == multiset(front + [x])
  {
    var rs := front + [x];
    GroupsForSnoc(rs, u, x.source);
    BySourceSnoc(front, x, x.source);
    BySourceAbsent(front, x.source);
    assert BySource(rs, x.source) == [x];
    GatherSnoc(front, x, u);
  }

  /** If the groups cover `front`, they cover `front` with one more record. */
  lemma GroupsCoverSnoc(front: seq<Record>, x: Record)
    requires multiset(Flatten(GroupsFor(front, UniqueSources(front)))) == multiset(front)
    ensures multiset(Flatten(GroupsFor(front + [x], UniqueSources(front + [x])))) == multiset(front + [x])
  {
    var u := UniqueSources(front);
    UniqueSourcesSnoc(front, x);
    if x.source in u {
      CoverSnocListed(front, x, u);
    } else {
      CoverSnocNew(front, x, u);
    }
  }

  /** The groups of the tags `unique()` lists hold exactly the frame's records. */
  lemma {:induction false} GroupsCover(rs: seq<Record>)
    ensures multiset(Flatten(GroupsFor(rs, UniqueSources(rs)))) == multiset(rs)
  {
    if rs != [] {
      var front := rs[..|rs| - 1];
      assert rs == front + [rs[|rs| - 1]];
      GroupsCover(front);
      GroupsCoverSnoc(front, rs[|rs| - 1]);
    }
  }

  /** The groups together hold exactly the frame's records, each as often as in the frame. */
  lemma PartitionCovers(rs: seq<Record>)
    ensures multiset(Flatten(Partition(rs))) == multiset(rs)
  {
    GroupsCover(rs);
  }

  /** Each record lies in exactly one group: the one whose tag is its own `Source`. */
  lemma RecordInOwnGroup(rs: seq<Record>, k: nat)
    requires k < |rs|
    ensures var p := Partition(rs);
            exists j :: 0 <= j < |p| && p[j].source == rs[k].source && rs[k] in p[j].rows &&
                        forall i :: 0 <= i < |p| && i != j ==> rs[k] !in p[i].rows
  {
    var p := Partition(rs);
    var u := UniqueSources(rs);
    assert HasSource(rs, rs[k].source);
    var j :| 0 <= j < |u| && u[j] == rs[k].source;
    assert p[j].source == rs[k].source && rs[k] in p[j].rows;
    forall i | 0 <= i < |p| && i != j ensures rs[k] !in p[i].rows {
      assert p[i].source == u[i] != u[j];
    }
  }

  /**
   The files `save_files` writes: "<source>.csv" for each group, in `unique()`
   order. Each file is non-empty and holds rows of the frame whose tag names
   the file, and every row of the frame is in some file.
   */
  function CsvFiles(rs: seq<Record>): (fs: seq<CsvFile>)
    ensures forall j :: 0 <= j < |fs| ==> fs[j].rows != []
    ensures forall j, r :: 0 <= j < |fs| && r in fs[j].rows ==> r in rs && fs[j].name == r.source + ".csv"
    ensures forall r :: r in rs ==> exists j :: 0 <= j < |fs| && r in fs[j].rows
  {
    var p := Partition(rs);
    var fs := seq(|p|, j requires 0 <= j < |p| => CsvFile(p[j].source + ".csv", p[j].rows));
    assert forall r :: r in rs ==> exists j :: 0 <= j < |fs| && r in fs[j].rows by {
      forall r | r in rs ensures exists j :: 0 <= j < |fs| && r in fs[j].rows {
        var j :| 0 <= j < |p| && r in p[j].rows;
        assert fs[j].rows == p[j].rows;
      }
    }
    fs
  }

  /** File `j` is "<tag j>.csv" holding the rows of tag `j` of `unique()`. */
  lemma CsvFileAt(rs: seq<Record>, j: nat)
    requires j < |UniqueSources(rs)|
    ensures |CsvFiles(rs)| == |UniqueSources(rs)|
    ensures var s := UniqueSources(rs)[j]; CsvFiles(rs)[j] == CsvFile(s + ".csv", BySource(rs, s))
  {
  }

  /**
   No two groups write to the same file name, so no group's CSV is
   overwritten by another. The names differ as strings; a file system that
   ignores case can still map two of them to one file.
   */
  lemma CsvNamesDistinct(rs: seq<Record>)
    ensures var fs := CsvFiles(rs);
            forall i, j :: 0 <= i < j < |fs| ==> fs[i].name != fs[j].name
  {
    var fs := CsvFiles(rs);
    var u := UniqueSources(rs);
    forall i, j | 0 <= i < j < |fs| ensures fs[i].name != fs[j].name {
      assert fs[i].name == u[i] + ".csv" && fs[j].name == u[j] + ".csv";
      assert (u[i] + ".csv")[..|u[i]|] == u[i];
      assert (u[j] + ".csv")[..|u[j]|] == u[j];
    }
  }
}
