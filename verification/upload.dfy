/** The loader of uploadToDb.js: list the directory, sort the names, skip
    names the pattern rejects and files without items, and insert one row per
    item into a table emptied beforehand. */
module Upload {
  import opened JsValues
  import opened Rpde
  import StringOrder
  import FileNames

  /** A row of `rpde_items` as inserted: `(page, kind, state, id, modified, data)`. */
  datatype Row = Row(page: nat, kind: string, state: string, id: string, modified: int, data: Json)

  function RowOf(page: nat, it: Item): Row
  {
    Row(page, it.kind, it.state, it.id, it.modified, it.data)
  }

  /** The item a row was made from. */
  function ItemOf(r: Row): Item
  {
    Item(r.kind, r.state, r.id, r.modified, r.data)
  }

  predicate SortedByName(fs: seq<File>)
  {
    forall i, j :: 0 <= i < j < |fs| ==> StringOrder.Le(fs[i].name, fs[j].name)
  }

  /** A file whose name sorts no later than every name of a sorted sequence
      may go in front of it. */
  lemma {:induction false} ConsSorted(x: File, rest: seq<File>)
    requires SortedByName(rest)
    requires forall y :: y in rest ==> StringOrder.Le(x.name, y.name)
    ensures SortedByName([x] + rest)
  {
    var r := [x] + rest;
    forall i, j | 0 <= i < j < |r|
      ensures StringOrder.Le(r[i].name, r[j].name)
    {
      if i == 0 {
        assert r[j] == rest[j - 1] && rest[j - 1] in rest;
      } else {
        assert r[i] == rest[i - 1] && r[j] == rest[j - 1];
      }
    }
  }

  /** A name no later than the first of a sorted sequence is no later than
      any of them. */
  lemma {:induction false} LeHeadLeAll(f: File, fs: seq<File>)
    requires SortedByName(fs) && |fs| > 0 && StringOrder.Le(f.name, fs[0].name)
    ensures forall y :: y in fs ==> StringOrder.Le(f.name, y.name)
  {
    forall y | y in fs
      ensures StringOrder.Le(f.name, y.name)
    {
      var j :| 0 <= j < |fs| && fs[j] == y;
      if j > 0 {
        StringOrder.LeTransitive(f.name, fs[0].name, fs[j].name);
      }
    }
  }

  /** Every element of a multiset-extension is the new element or an old one. */
  lemma InExtension(x: File, f: File, fs: seq<File>, r: seq<File>)
    requires multiset(r) == multiset(fs) + multiset{f}
    requires x in r
    ensures x == f || x in fs
  {
    assert x in multiset(r);
  }

  /** `f` placed into the name-sorted `fs`. */
  function Insert(f: File, fs: seq<File>): (r: seq<File>)
    requires SortedByName(fs)
    ensures SortedByName(r)
    ensures multiset(r) == multiset(fs) + multiset{f}
  {
    if |fs| == 0 then [f]
    else if StringOrder.Le(f.name, fs[0].name) then
      LeHeadLeAll(f, fs);
      ConsSorted(f, fs);
      [f] + fs
    else
      var tail := fs[1..];
      assert SortedByName(tail);
      var rest := Insert(f, tail);
      assert fs == [fs[0]] + tail;
      StringOrder.LeTotal(f.name, fs[0].name);
      forall x | x in rest
        ensures StringOrder.Le(fs[0].name, x.name)
      {
        InExtension(x, f, tail, rest);
        if x != f {
          var j :| 0 <= j < |tail| && tail[j] == x;
          assert fs[j + 1] == x;
        }
      }
      ConsSorted(fs[0], rest);
      [fs[0]] + rest
  }

  /** `fileNames.sort()`: the directory listing in ascending name order. */
  function SortByName(fs: seq<File>): (r: seq<File>)
    ensures SortedByName(r)
    ensures multiset(r) == multiset(fs)
  {
    if |fs| == 0 then []
    else
      assert fs == [fs[0]] + fs[1..];
      Insert(fs[0], SortByName(fs[1..]))
  }

  /** The rows one file contributes (the body of the `for` loop). */
  function FileRows(f: File): seq<Row>
  {
    match FileNames.ParseFileName(f.name)
    case None => []
    case Some(page) =>
      if f.items.None? || |f.items.value| == 0 then []
      else seq(|f.items.value|, i requires 0 <= i < |f.items.value| => RowOf(page, f.items.value[i]))
  }

  /** A file contributes no rows when its name fails the pattern or its
      `items` are missing or empty; otherwise one row per item, in item order,
      each carrying the page number from the name. */
  lemma FileRowsSpec(f: File)
    ensures FileNames.ParseFileName(f.name).None? ==> FileRows(f) == []
    ensures f.items.None? || f.items == Some([]) ==> FileRows(f) == []
    ensures FileNames.ParseFileName(f.name).Some? && f.items.Some? ==>
              |FileRows(f)| == |f.items.value|
              && forall i :: 0 <= i < |f.items.value| ==>
                   FileRows(f)[i] == RowOf(FileNames.ParseFileName(f.name).value, f.items.value[i])
  {
  }

  /** Row `r` stems from file `f`: the name carries `r`'s page and the file's
      items include the item `r` was made from. */
  predicate Contributes(f: File, r: Row)
  {
    FileNames.ParseFileName(f.name) == Some(r.page) && f.items.Some? && ItemOf(r) in f.items.value
  }

  lemma FileRowsMembership(f: File, r: Row)
    ensures r in FileRows(f) <==> Contributes(f, r)
  {
    if Contributes(f, r) {
      var items := f.items.value;
      var i :| 0 <= i < |items| && items[i] == ItemOf(r);
      assert FileRows(f)[i] == r;
    }
  }

  /** The rows of the files in the order given. */
  function Rows(fs: seq<File>): seq<Row>
  {
    if |fs| == 0 then [] else FileRows(fs[0]) + Rows(fs[1..])
  }

  /** A row is inserted exactly when some file contributes it. */
  lemma {:induction false} RowsMembership(fs: seq<File>, r: Row)
    ensures r in Rows(fs) <==> exists f :: f in fs && Contributes(f, r)
  {
    if |fs| > 0 {
      RowsMembership(fs[1..], r);
      FileRowsMembership(fs[0], r);
      assert forall f :: f in fs <==> f == fs[0] || f in fs[1..];
    }
  }

  /** Appending one more file's rows to those of the files before it. */
  lemma {:induction false} RowsSnoc(fs: seq<File>, f: File)
    ensures Rows(fs + [f]) == Rows(fs) + FileRows(f)
  {
    if |fs| == 0 {
      assert Rows([f]) == FileRows(f) + Rows([]);
    } else {
      assert (fs + [f])[1..] == fs[1..] + [f];
      RowsSnoc(fs[1..], f);
    }
  }

  /** Sorting the listing changes the order of the rows, not which rows
      there are. */
  lemma SortedRowsMembership(dir: seq<File>, r: Row)
    ensures r in Rows(SortByName(dir)) <==> exists f :: f in dir && Contributes(f, r)
  {
    var sorted := SortByName(dir);
    RowsMembership(sorted, r);
    forall f
      ensures f in sorted <==> f in dir
    {
      assert f in sorted <==> f in multiset(sorted);
      assert f in dir <==> f in multiset(dir);
    }
  }

  /** The number of items a file contributes: all of them when its name is
      accepted and it has `items`, none otherwise. */
  function ItemCount(f: File): nat
  {
    if FileNames.ParseFileName(f.name).Some? && f.items.Some? then |f.items.value| else 0
  }

  /** The number of items the files of a listing contribute together. */
  function LoadedItemCount(fs: seq<File>): nat
  {
    if |fs| == 0 then 0 else ItemCount(fs[0]) + LoadedItemCount(fs[1..])
  }

  /** One row per contributed item: no item is dropped or inserted twice. */
  lemma {:induction false} RowsCount(fs: seq<File>)
    ensures |Rows(fs)| == LoadedItemCount(fs)
  {
    if |fs| > 0 {
      FileRowsSpec(fs[0]);
      RowsCount(fs[1..]);
    }
  }

  /** Insertion adds the inserted file's items to the count. */
  lemma {:induction false} InsertCount(f: File, fs: seq<File>)
    requires SortedByName(fs)
    ensures LoadedItemCount(Insert(f, fs)) == ItemCount(f) + LoadedItemCount(fs)
  {
    if |fs| > 0 && !StringOrder.Le(f.name, fs[0].name) {
      var r := Insert(f, fs);
      assert SortedByName(fs[1..]);
      assert r[1..] == Insert(f, fs[1..]);
      InsertCount(f, fs[1..]);
    } else {
      var r := Insert(f, fs);
      assert r[1..] == fs;
    }
  }

  /** Sorting the listing does not change how many items it contributes. */
  lemma {:induction false} SortCount(fs: seq<File>)
    ensures LoadedItemCount(SortByName(fs)) == LoadedItemCount(fs)
  {
    if |fs| > 0 {
      SortCount(fs[1..]);
      InsertCount(fs[0], SortByName(fs[1..]));
    }
  }

  /** Inserting the next file's rows after the rows of the files before it. */
  lemma InsertStep(table: seq<Row>, fileNames: seq<File>, i: nat)
    requires i < |fileNames|
    ensures table + Rows(fileNames[..i]) + FileRows(fileNames[i]) == table + Rows(fileNames[..i + 1])
  {
    RowsSnoc(fileNames[..i], fileNames[i]);
    assert fileNames[..i + 1] == fileNames[..i] + [fileNames[i]];
  }

  /** The loop of `uploadToDb` over the sorted names: each file's rows are
      inserted after whatever the table already holds, in file order. */
  method InsertFiles(table: seq<Row>, fileNames: seq<File>) returns (t: seq<Row>)
    ensures t == table + Rows(fileNames)
  {
    t := table;
    var i := 0;
    while i < |fileNames|
      invariant 0 <= i <= |fileNames|
      invariant t == table + Rows(fileNames[..i])
    {
      var f := fileNames[i];
      var rows := FileRows(f);
      InsertStep(table, fileNames, i);
      t := t + rows;
      i := i + 1;
    }
    assert fileNames[..i] == fileNames;
  }

  /** `uploadToDb`: `TRUNCATE rpde_items`, then the rows of every file in
      name order. `table` is what the table held before; none of it
      survives, every row left stems from a file of the directory, and there
      is one row per item of every accepted file. */
  method UploadToDb(table: seq<Row>, dir: seq<File>) returns (t: seq<Row>)
    ensures t == Rows(SortByName(dir))
    ensures forall r :: r in t <==> exists f :: f in dir && Contributes(f, r)
    ensures |t| == LoadedItemCount(dir)
  {
    var truncated: seq<Row> := [];
    var fileNames := SortByName(dir);
    t := InsertFiles(truncated, fileNames);
    RowsCount(fileNames);
    SortCount(dir);
    forall r
      ensures r in t <==> exists f :: f in dir && Contributes(f, r)
    {
      SortedRowsMembership(dir, r);
    }
  }

  /** The listing `[rpde-2.json, rpde-10.json]` is sorted to
      `[rpde-10.json, rpde-2.json]`. */
  lemma TenSortedBeforeTwo(f2: File, f10: File)
    requires f2.name == "rpde-2.json" && f10.name == "rpde-10.json"
    ensures SortByName([f2, f10]) == [f10, f2]
  {
    StringOrder.TenBeforeTwo();
    assert [f2, f10][1..] == [f10];
    assert SortByName([f10]) == [f10] by {
      assert [f10][1..] == [];
    }
    assert Insert(f2, [f10]) == [f10, f2] by {
      assert [f10][1..] == [];
    }
  }

  /** The one row of a file holding a single item. */
  lemma SingleItemFileRows(page: nat, it: Item)
    ensures FileRows(File(FileNames.FileName(page), Some([it]))) == [RowOf(page, it)]
  {
    FileNames.FileNameRoundTrip(page);
  }

  /** The rows of two files are those of the first, then those of the second. */
  lemma RowsOfTwo(f: File, g: File)
    ensures Rows([f, g]) == FileRows(f) + FileRows(g)
  {
    assert [f, g][1..] == [g] && [g][1..] == [];
    assert Rows([g]) == FileRows(g) + Rows([]);
  }

  /** Rows follow the string order of the names, not the page order: the rows
      of `rpde-10.json` are inserted before those of `rpde-2.json`. */
  lemma TenLoadedBeforeTwo(a: Item, b: Item)
    ensures var f2 := File(FileNames.FileName(2), Some([a]));
            var f10 := File(FileNames.FileName(10), Some([b]));
            Rows(SortByName([f2, f10])) == [RowOf(10, b), RowOf(2, a)]
  {
    var f2 := File(FileNames.FileName(2), Some([a]));
    var f10 := File(FileNames.FileName(10), Some([b]));
    FileNames.SmallFileNames();
    TenSortedBeforeTwo(f2, f10);
    RowsOfTwo(f10, f2);
    SingleItemFileRows(2, a);
    SingleItemFileRows(10, b);
  }
}
