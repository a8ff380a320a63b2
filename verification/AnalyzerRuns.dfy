/** What the trees hold after any run of banks: a stable partition of the entries that arrived. */
module AnalyzerRuns {
  import opened CStrings
  import opened GemBank
  import opened BankNames
  import opened FileHeader
  import opened Analyzer

  // ---------- from banks to arrivals ----------

  function FillAll(t: Trees, arrivals: seq<Arrival>): Trees
  {
    if arrivals == [] then t else Fill(FillAll(t, arrivals[..|arrivals| - 1]), arrivals[|arrivals| - 1])
  }

  /** The arrivals of the banks of known type. */
  function Arrivals(items: seq<Item>): seq<Arrival>
    requires AllSavable(items)
  {
    if items == [] then []
    else
      var n := |items| - 1;
      if KindOf(items[n].bank) == Unknown then Arrivals(items[..n])
      else Arrivals(items[..n]) + [ArrivalOf(items[n])]
  }

  lemma FillOneMore(t: Trees, arrivals: seq<Arrival>, a: Arrival)
    ensures FillAll(t, arrivals + [a]) == Fill(FillAll(t, arrivals), a)
  {
    assert (arrivals + [a])[..|arrivals|] == arrivals;
  }

  /** Saving banks is filling trees with what they bring. */
  lemma {:induction false} SaveAllIsFillAll(t: Trees, items: seq<Item>)
    requires AllSavable(items)
    ensures SaveAll(t, items) == FillAll(t, Arrivals(items))
  {
    hide Savable, ArrivalOf, Fill, KindOf;
    if items != [] {
      var n := |items| - 1;
      SaveAllIsFillAll(t, items[..n]);
      SizeOf(items[n].bank);
      if KindOf(items[n].bank) != Unknown {
        FillOneMore(t, Arrivals(items[..n]), ArrivalOf(items[n]));
      }
    }
  }

  lemma SizeOf(b: seq<octet>)
    requires Savable(b)
    ensures |b| >= BANK_HEADER
  {
  }

  /** One event after the other is the same as all their banks at once. */
  lemma {:induction false} RunsCompose(t: Trees, xs: seq<Item>, ys: seq<Item>)
    requires AllSavable(xs) && AllSavable(ys)
    ensures AllSavable(xs + ys) && SaveAll(SaveAll(t, xs), ys) == SaveAll(t, xs + ys)
  {
    hide Save, Savable;
    if ys == [] {
      assert xs + ys == xs;
    } else {
      var n := |ys| - 1;
      RunsCompose(t, xs, ys[..n]);
      assert (xs + ys)[..|xs| + n] == xs + ys[..n] && (xs + ys)[|xs| + n] == ys[n];
    }
  }

  // ---------- the expected contents, straight from the stream ----------

  /** All rows brought under that name, in order of arrival. */
  function RowsOf(arrivals: seq<Arrival>, name: string): seq<Row>
  {
    if arrivals == [] then []
    else
      var n := |arrivals| - 1;
      if arrivals[n].key == name then RowsOf(arrivals[..n], name) + arrivals[n].rows
      else RowsOf(arrivals[..n], name)
  }

  /** The names in order of first arrival. */
  function Names(arrivals: seq<Arrival>): seq<string>
  {
    if arrivals == [] then []
    else
      var n := |arrivals| - 1;
      var names := Names(arrivals[..n]);
      if arrivals[n].key in names then names else names + [arrivals[n].key]
  }

  function RowsBrought(arrivals: seq<Arrival>): nat
  {
    if arrivals == [] then 0
    else RowsBrought(arrivals[..|arrivals| - 1]) + |arrivals[|arrivals| - 1].rows|
  }

  /** The branch the first of them asks for. */
  function FirstBranch(arrivals: seq<Arrival>, name: string): Option<string>
  {
    if arrivals == [] then None
    else
      var n := |arrivals| - 1;
      var earlier := FirstBranch(arrivals[..n], name);
      if earlier == None && arrivals[n].key == name then Some(arrivals[n].branch) else earlier
  }

  // ---------- the contents of the trees ----------

  function TreeNames(trees: seq<Tree>): (r: seq<string>)
    ensures |r| == |trees| && forall i | 0 <= i < |r| :: r[i] == trees[i].name
  {
    seq(|trees|, i requires 0 <= i < |trees| => trees[i].name)
  }

  function RowsIn(t: Trees, name: string): seq<Row>
  {
    var i := IndexOf(t.trees, name);
    if i < |t.trees| then t.trees[i].rows else []
  }

  function BranchIn(t: Trees, name: string): Option<string>
  {
    var i := IndexOf(t.trees, name);
    if i < |t.trees| && i < |t.data| then Some(t.data[i]) else None
  }

  function TotalRows(trees: seq<Tree>): nat
  {
    if trees == [] then 0 else TotalRows(trees[..|trees| - 1]) + |trees[|trees| - 1].rows|
  }

  // ---------- one step ----------

  /** A bank appends its rows to the tree of its name, or opens one. */
  lemma FillIs(t: Trees, a: Arrival)
    ensures var i := IndexOf(t.trees, a.key);
            Fill(t, a) ==
            if i < |t.trees| then Trees(t.trees[i := Tree(a.key, t.trees[i].rows + a.rows)], t.data)
            else Trees(t.trees + [Tree(a.key, a.rows)], t.data + [a.branch])
  {
    if IndexOf(t.trees, a.key) == |t.trees| {
      assert [] + a.rows == a.rows;
      var all, i := t.trees + [Tree(a.key, [])], |t.trees|;
      assert all[i := Tree(a.key, [] + a.rows)] == t.trees + [Tree(a.key, a.rows)];
    }
  }

  /** Replacing rows leaves the place of every name. */
  lemma IndexAfterUpdate(trees: seq<Tree>, i: nat, rows: seq<Row>, name: string)
    requires i < |trees|
    ensures IndexOf(trees[i := Tree(trees[i].name, rows)], name) == IndexOf(trees, name)
  {
    IndexOfIs(trees[i := Tree(trees[i].name, rows)], name, IndexOf(trees, name));
  }

  lemma IndexAfterAppend(trees: seq<Tree>, tree: Tree, name: string)
    requires IndexOf(trees, tree.name) == |trees|
    ensures IndexOf(trees + [tree], name) ==
            if tree.name == name || IndexOf(trees, name) < |trees| then IndexOf(trees, name) else |trees| + 1
  {
    var i := IndexOf(trees, name);
    IndexOfIs(trees + [tree], name, if tree.name == name || i < |trees| then i else i + 1);
  }

  lemma FillStep(t: Trees, a: Arrival, name: string)
    requires |t.data| == |t.trees|
    ensures var r := Fill(t, a);
            && |r.data| == |r.trees|
            && RowsIn(r, name) == (if a.key == name then RowsIn(t, name) + a.rows else RowsIn(t, name))
            && BranchIn(r, name) ==
                 if BranchIn(t, name) == None && a.key == name then Some(a.branch) else BranchIn(t, name)
  {
    hide Fill;
    FillIs(t, a);
    var i := IndexOf(t.trees, a.key);
    if i < |t.trees| {
      IndexAfterUpdate(t.trees, i, t.trees[i].rows + a.rows, name);
    } else {
      IndexAfterAppend(t.trees, Tree(a.key, a.rows), name);
      assert [] + a.rows == a.rows;
    }
  }

  lemma NamesStep(t: Trees, a: Arrival)
    ensures var names := TreeNames(t.trees);
            TreeNames(Fill(t, a).trees) == if a.key in names then names else names + [a.key]
  {
    hide Fill;
    FillIs(t, a);
    var i, names := IndexOf(t.trees, a.key), TreeNames(t.trees);
    if i < |t.trees| {
      assert names[i] == a.key;
      assert TreeNames(Fill(t, a).trees) == names;
    } else {
      assert a.key !in names;
      assert TreeNames(Fill(t, a).trees) == names + [a.key];
    }
  }

  lemma {:induction false} TotalAfterUpdate(trees: seq<Tree>, i: nat, rows: seq<Row>)
    requires i < |trees|
    ensures TotalRows(trees[i := Tree(trees[i].name, trees[i].rows + rows)]) == TotalRows(trees) + |rows|
  {
    var n := |trees| - 1;
    var now := trees[i := Tree(trees[i].name, trees[i].rows + rows)];
    if i < n {
      TotalAfterUpdate(trees[..n], i, rows);
      assert now[..n] == trees[..n][i := Tree(trees[i].name, trees[i].rows + rows)];
    } else {
      assert now[..n] == trees[..n];
    }
  }

  lemma TotalStep(t: Trees, a: Arrival)
    ensures TotalRows(Fill(t, a).trees) == TotalRows(t.trees) + |a.rows|
  {
    hide Fill;
    FillIs(t, a);
    var i := IndexOf(t.trees, a.key);
    if i < |t.trees| {
      TotalAfterUpdate(t.trees, i, a.rows);
    } else {
      assert (t.trees + [Tree(a.key, a.rows)])[..|t.trees|] == t.trees;
    }
  }

  // ---------- whole runs ----------

  const NO_TREES := Trees([], [])

  /** For every name, the tree of that name holds exactly the rows brought under that name, in order of
      arrival; its branch is that of the first of them. */
  lemma {:induction false} TreesPartition(arrivals: seq<Arrival>, name: string)
    ensures var t := FillAll(NO_TREES, arrivals);
            && |t.data| == |t.trees|
            && RowsIn(t, name) == RowsOf(arrivals, name) && BranchIn(t, name) == FirstBranch(arrivals, name)
  {
    hide Fill;
    if arrivals != [] {
      var n := |arrivals| - 1;
      TreesPartition(arrivals[..n], name);
      FillStep(FillAll(NO_TREES, arrivals[..n]), arrivals[n], name);
    }
  }

  /** There is one tree for each name that has arrived, in order of first arrival. */
  lemma {:induction false} TreesAreNamed(arrivals: seq<Arrival>)
    ensures TreeNames(FillAll(NO_TREES, arrivals).trees) == Names(arrivals)
  {
    hide Fill;
    if arrivals != [] {
      var n := |arrivals| - 1;
      TreesAreNamed(arrivals[..n]);
      NamesStep(FillAll(NO_TREES, arrivals[..n]), arrivals[n]);
    }
  }

  ghost predicate Distinct(names: seq<string>)
  {
    forall i, j | 0 <= i < j < |names| :: names[i] != names[j]
  }

  lemma {:induction false} NamesDistinct(arrivals: seq<Arrival>)
    ensures Distinct(Names(arrivals))
  {
    if arrivals != [] {
      NamesDistinct(arrivals[..|arrivals| - 1]);
    }
  }

  /** No row is lost or stored twice, whatever the trees held before. */
  lemma {:induction false} RowsAreConserved(t: Trees, arrivals: seq<Arrival>)
    ensures TotalRows(FillAll(t, arrivals).trees) == TotalRows(t.trees) + RowsBrought(arrivals)
  {
    hide Fill;
    if arrivals != [] {
      var n := |arrivals| - 1;
      RowsAreConserved(t, arrivals[..n]);
      TotalStep(FillAll(t, arrivals[..n]), arrivals[n]);
    }
  }

  /** Tree by tree: the names differ, and each tree holds the rows of its name. */
  lemma EachTree(arrivals: seq<Arrival>, i: nat)
    requires i < |FillAll(NO_TREES, arrivals).trees|
    ensures var t := FillAll(NO_TREES, arrivals);
            && |t.data| == |t.trees| && Distinct(TreeNames(t.trees))
            && t.trees[i].rows == RowsOf(arrivals, t.trees[i].name)
            && Some(t.data[i]) == FirstBranch(arrivals, t.trees[i].name)
  {
    hide FillAll, RowsOf, FirstBranch, Names;
    var t := FillAll(NO_TREES, arrivals);
    TreesAreNamed(arrivals);
    NamesDistinct(arrivals);
    TreesPartition(arrivals, t.trees[i].name);
    FoundAt(t.trees, i);
  }

  lemma FoundAt(trees: seq<Tree>, i: nat)
    requires i < |trees| && Distinct(TreeNames(trees))
    ensures IndexOf(trees, trees[i].name) == i
  {
    var names := TreeNames(trees);
    forall k | 0 <= k < i ensures trees[k].name != trees[i].name {
      assert names[k] != names[i];
    }
    IndexOfIs(trees, trees[i].name, i);
  }

  /** Every arrival has a tree. */
  lemma {:induction false} EveryArrivalHasATree(arrivals: seq<Arrival>, k: nat)
    requires k < |arrivals|
    ensures arrivals[k].key in Names(arrivals)
  {
    var n := |arrivals| - 1;
    if k < n {
      EveryArrivalHasATree(arrivals[..n], k);
    }
  }

  /** The same, said of banks: every entry of a known bank adds a row. */
  lemma EntriesAreConserved(t: Trees, items: seq<Item>)
    requires AllSavable(items)
    ensures TotalRows(SaveAll(t, items).trees) == TotalRows(t.trees) + KnownEntries(items)
  {
    SaveAllIsFillAll(t, items);
    RowsAreConserved(t, Arrivals(items));
    EntriesBrought(items);
  }

  function KnownEntries(items: seq<Item>): nat
    requires AllSavable(items)
  {
    if items == [] then 0
    else
      var n := |items| - 1;
      if KindOf(items[n].bank) == Unknown then KnownEntries(items[..n])
      else KnownEntries(items[..n]) + NumberOfEntries(items[n].bank)
  }

  lemma {:induction false} EntriesBrought(items: seq<Item>)
    requires AllSavable(items)
    ensures RowsBrought(Arrivals(items)) == KnownEntries(items)
  {
    hide Savable, KindOf, ArrivalOf, RowsBrought;
    if items == [] {
      BroughtNone();
    } else {
      var n := |items| - 1;
      EntriesBrought(items[..n]);
      SizeOf(items[n].bank);
      if KindOf(items[n].bank) != Unknown {
        BroughtOneMore(Arrivals(items[..n]), ArrivalOf(items[n]));
        ArrivalSize(items[n]);
      }
    }
  }

  lemma BroughtNone()
    ensures RowsBrought([]) == 0
  {
  }

  lemma BroughtOneMore(arrivals: seq<Arrival>, a: Arrival)
    ensures RowsBrought(arrivals + [a]) == RowsBrought(arrivals) + |a.rows|
  {
    assert (arrivals + [a])[..|arrivals|] == arrivals;
  }

  lemma ArrivalSize(item: Item)
    requires Savable(item.bank)
    ensures |ArrivalOf(item).rows| == NumberOfEntries(item.bank)
  {
    hide KindOf;
  }

  // ---------- branches ----------

  ghost predicate OneTypePerName(arrivals: seq<Arrival>, name: string)
  {
    forall i, j | 0 <= i < |arrivals| && 0 <= j < |arrivals| && arrivals[i].key == name && arrivals[j].key == name ::
      arrivals[i].branch == arrivals[j].branch
  }

  lemma {:induction false} FirstBranchIsAnArrivals(arrivals: seq<Arrival>, name: string) returns (k: nat)
    requires FirstBranch(arrivals, name) != None
    ensures k < |arrivals| && arrivals[k].key == name && FirstBranch(arrivals, name) == Some(arrivals[k].branch)
  {
    var n := |arrivals| - 1;
    if FirstBranch(arrivals[..n], name) != None {
      k := FirstBranchIsAnArrivals(arrivals[..n], name);
    } else {
      k := n;
    }
  }

  lemma {:induction false} FirstBranchExists(arrivals: seq<Arrival>, name: string, k: nat)
    requires k < |arrivals| && arrivals[k].key == name
    ensures FirstBranch(arrivals, name) != None
  {
    var n := |arrivals| - 1;
    if k < n {
      FirstBranchExists(arrivals[..n], name, k);
    }
  }

  /** The branch of a tree fits everything stored in it exactly when its name always carried one type. */
  lemma BranchFitsIff(arrivals: seq<Arrival>, name: string)
    ensures (forall k | 0 <= k < |arrivals| && arrivals[k].key == name ::
               BranchIn(FillAll(NO_TREES, arrivals), name) == Some(arrivals[k].branch))
            <==> OneTypePerName(arrivals, name)
  {
    hide FillAll, BranchIn, RowsIn, RowsOf, FirstBranch;
    TreesPartition(arrivals, name);
    if OneTypePerName(arrivals, name) {
      forall k | 0 <= k < |arrivals| && arrivals[k].key == name
        ensures FirstBranch(arrivals, name) == Some(arrivals[k].branch)
      {
        FirstBranchExists(arrivals, name, k);
        var first := FirstBranchIsAnArrivals(arrivals, name);
      }
    }
  }

  /** Files and data never share a tree: a name that begins like a file's is a file's. */
  lemma FileBranchIff(b: seq<octet>)
    requires Savable(b)
    ensures BranchName(KindOf(b), Key(b)) == "TStoreGEMFile<char>" <==> KindOf(b) == FileKind
  {
    hide KindOf, CombinedName, BranchName, NamesAFile, FileKey, ScanHeader, HeaderInside;
    BranchNameIff(KindOf(b), Key(b));
    if KindOf(b) == FileKind {
      FileNameIsAFile(b, FileOf(b).value.filename);
    } else {
      DataNameIsNoFile(b);
    }
  }

  lemma FileNameIsAFile(b: seq<octet>, filename: string)
    requires |b| >= BANK_HEADER
    ensures NamesAFile(FileKey(b, filename))
  {
    hide CombinedName;
    assert FileKey(b, filename)[..5] == FILE_PREFIX;
  }

  lemma BranchNameIff(kind: Kind, name: string)
    ensures BranchName(kind, name) == "TStoreGEMFile<char>" <==> NamesAFile(name)
  {
    assert BranchName(kind, name)[9] == if NamesAFile(name) then 'F' else 'D';
  }

  lemma DataNameIsNoFile(b: seq<octet>)
    requires |b| >= BANK_HEADER
    ensures !NamesAFile(CombinedName(b))
  {
    var first := if IsThisHost(b) then EquipmentName(b) else Category(b);
    var k := CombinedName(b);
    assert k[|first|] == '\\' && forall i | 0 <= i < |first| :: k[i] == first[i];
    BackslashFirst(k, |first|);
  }

  lemma BackslashFirst(k: string, n: nat)
    requires n < |k| && k[n] == '\\' && forall i | 0 <= i < n :: Kept(k[i])
    ensures !NamesAFile(k)
  {
    var p := if n < 4 then n else 4;
    assert Kept(k[p]) || k[p] == '\\';
    assert FILE_PREFIX[p] == 'F' || FILE_PREFIX[p] == 'I' || FILE_PREFIX[p] == 'L' || FILE_PREFIX[p] == 'E' || p == 4;
    assert k[p] != FILE_PREFIX[p];
    assert |k| >= 5 ==> k[..5][p] == k[p];
  }
}
