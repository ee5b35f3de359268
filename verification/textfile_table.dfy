/**
 * The table `dm.dm_textfile` and the statements the handlers run on it.
 * A row is `(compid, filetype, lineno, base64str)`; a text file is the set
 * of rows sharing `(compid, filetype)`. The table is a sequence of rows:
 * DELETE keeps the rows of other files, INSERT appends, and
 * `SELECT * ... ORDER BY lineno` filters and sorts by line number. The
 * table's key `(compid, filetype, lineno)` is the invariant `KeyUnique`.
 */
module TextFileTable {

  datatype Row = Row(compid: int, filetype: string, lineno: int, base64str: string)

  predicate OfFile(r: Row, compid: int, filetype: string) {
    r.compid == compid && r.filetype == filetype
  }

  /** `WHERE compid = %s AND filetype = %s`: the rows of one file, in table order. */
  function RowsOf(table: seq<Row>, compid: int, filetype: string): (rows: seq<Row>)
    ensures forall r :: r in rows <==> r in table && OfFile(r, compid, filetype)
    decreases |table|
  {
    if table == [] then []
    else if OfFile(table[0], compid, filetype) then [table[0]] + RowsOf(table[1..], compid, filetype)
    else RowsOf(table[1..], compid, filetype)
  }

  /** A file with no row in the table selects nothing. */
  lemma {:induction false} RowsOfAbsent(table: seq<Row>, compid: int, filetype: string)
    requires forall r :: r in table ==> !OfFile(r, compid, filetype)
    ensures RowsOf(table, compid, filetype) == []
    decreases |table|
  {
    if table != [] {
      assert table[0] in table;
      RowsOfAbsent(table[1..], compid, filetype);
    }
  }

  /** `DELETE FROM dm.dm_textfile WHERE compid = %s AND filetype = %s`: the rows that remain. */
  function WithoutFile(table: seq<Row>, compid: int, filetype: string): (rows: seq<Row>)
    ensures forall r :: r in rows <==> r in table && !OfFile(r, compid, filetype)
    decreases |table|
  {
    if table == [] then []
    else if OfFile(table[0], compid, filetype) then WithoutFile(table[1..], compid, filetype)
    else [table[0]] + WithoutFile(table[1..], compid, filetype)
  }

  /** The DELETE removes exactly the rows the SELECT of the same file would return, no more and no fewer. */
  lemma {:induction false} PartitionByFile(table: seq<Row>, compid: int, filetype: string)
    ensures multiset(RowsOf(table, compid, filetype)) + multiset(WithoutFile(table, compid, filetype)) == multiset(table)
    decreases |table|
  {
    if table != [] {
      PartitionByFile(table[1..], compid, filetype);
      assert table == [table[0]] + table[1..];
    }
  }

  /** The rows the write path builds: line `lines[k]` gets line number `lineno + k`. */
  function Numbered(compid: int, filetype: string, lines: seq<string>, lineno: int): seq<Row>
    decreases |lines|
  {
    if lines == [] then []
    else [Row(compid, filetype, lineno, lines[0])] + Numbered(compid, filetype, lines[1..], lineno + 1)
  }

  /** Numbering keeps the request's file, counts up from `lineno` without gaps and keeps each line unchanged. */
  lemma {:induction false} NumberedRows(compid: int, filetype: string, lines: seq<string>, lineno: int)
    ensures |Numbered(compid, filetype, lines, lineno)| == |lines|
    ensures forall k :: 0 <= k < |lines| ==>
              Numbered(compid, filetype, lines, lineno)[k] == Row(compid, filetype, lineno + k, lines[k])
    decreases |lines|
  {
    if lines != [] {
      NumberedRows(compid, filetype, lines[1..], lineno + 1);
    }
  }

  /** The table after a committed write: DELETE of the file, then INSERT of its numbered lines. */
  function Replace(table: seq<Row>, compid: int, filetype: string, lines: seq<string>): (rows: seq<Row>)
    ensures forall r :: r in rows <==>
              (r in table && !OfFile(r, compid, filetype)) || r in Numbered(compid, filetype, lines, 1)
  {
    WithoutFile(table, compid, filetype) + Numbered(compid, filetype, lines, 1)
  }

  predicate Ascending(rows: seq<Row>) {
    forall i, j :: 0 <= i < j < |rows| ==> rows[i].lineno <= rows[j].lineno
  }

  predicate StrictlyAscending(rows: seq<Row>) {
    forall i, j :: 0 <= i < j < |rows| ==> rows[i].lineno < rows[j].lineno
  }

  function InsertByLineno(r: Row, rows: seq<Row>): seq<Row>
    decreases |rows|
  {
    if rows == [] || r.lineno <= rows[0].lineno then [r] + rows
    else [rows[0]] + InsertByLineno(r, rows[1..])
  }

  /** `ORDER BY lineno`, as a stable insertion sort. */
  function SortByLineno(rows: seq<Row>): seq<Row>
    decreases |rows|
  {
    if rows == [] then [] else InsertByLineno(rows[0], SortByLineno(rows[1..]))
  }

  lemma {:induction false} InsertByLinenoPerm(r: Row, rows: seq<Row>)
    ensures multiset(InsertByLineno(r, rows)) == multiset(rows) + multiset{r}
    decreases |rows|
  {
    if rows != [] && r.lineno > rows[0].lineno {
      InsertByLinenoPerm(r, rows[1..]);
      assert rows == [rows[0]] + rows[1..];
    }
  }

  lemma AscendingCons(x: Row, t: seq<Row>)
    requires Ascending(t) && forall y :: y in t ==> x.lineno <= y.lineno
    ensures Ascending([x] + t)
  {
    forall i, j | 0 <= i < j < |t| + 1 ensures ([x] + t)[i].lineno <= ([x] + t)[j].lineno {
      assert ([x] + t)[j] == t[j - 1];
      if i > 0 { assert ([x] + t)[i] == t[i - 1]; }
    }
  }

  lemma {:induction false} InsertByLinenoSpec(r: Row, rows: seq<Row>)
    requires Ascending(rows)
    ensures Ascending(InsertByLineno(r, rows))
    ensures multiset(InsertByLineno(r, rows)) == multiset(rows) + multiset{r}
    decreases |rows|
  {
    InsertByLinenoPerm(r, rows);
    if rows == [] || r.lineno <= rows[0].lineno {
      forall y | y in rows ensures r.lineno <= y.lineno {
        if rows != [] { assert rows[0].lineno <= y.lineno; }
      }
      AscendingCons(r, rows);
    } else {
      assert Ascending(rows[1..]);
      InsertByLinenoSpec(r, rows[1..]);
      var tail := InsertByLineno(r, rows[1..]);
      forall x | x in tail ensures rows[0].lineno <= x.lineno {
        assert x in multiset(tail);
      }
      AscendingCons(rows[0], tail);
    }
  }

  /** The sorted rows are in ascending line order and are a permutation of the input. */
  lemma {:induction false} SortByLinenoSpec(rows: seq<Row>)
    ensures Ascending(SortByLineno(rows))
    ensures multiset(SortByLineno(rows)) == multiset(rows)
    decreases |rows|
  {
    if rows != [] {
      SortByLinenoSpec(rows[1..]);
      InsertByLinenoSpec(rows[0], SortByLineno(rows[1..]));
      assert rows == [rows[0]] + rows[1..];
    }
  }

  /** Rows already in ascending order are left as they are. */
  lemma {:induction false} SortAscendingUnchanged(rows: seq<Row>)
    requires Ascending(rows)
    ensures SortByLineno(rows) == rows
    decreases |rows|
  {
    if rows != [] {
      SortAscendingUnchanged(rows[1..]);
      assert rows == [rows[0]] + rows[1..];
    }
  }

  /** `SELECT * FROM dm.dm_textfile WHERE compid = %s AND filetype = %s Order by lineno`. */
  function Select(table: seq<Row>, compid: int, filetype: string): (records: seq<Row>)
    ensures Ascending(records)
    ensures multiset(records) == multiset(RowsOf(table, compid, filetype))
  {
    SortByLinenoSpec(RowsOf(table, compid, filetype));
    SortByLineno(RowsOf(table, compid, filetype))
  }

  /** `rec[3]` of each record: the `base64str` column. */
  function Base64Column(records: seq<Row>): (lines: seq<string>)
    ensures |lines| == |records|
    ensures forall k :: 0 <= k < |records| ==> lines[k] == records[k].base64str
    decreases |records|
  {
    if records == [] then [] else [records[0].base64str] + Base64Column(records[1..])
  }

  lemma {:induction false} RowsOfAppend(a: seq<Row>, b: seq<Row>, compid: int, filetype: string)
    ensures RowsOf(a + b, compid, filetype) == RowsOf(a, compid, filetype) + RowsOf(b, compid, filetype)
    decreases |a|
  {
    if a != [] {
      RowsOfAppend(a[1..], b, compid, filetype);
      assert (a + b)[1..] == a[1..] + b;
    } else {
      assert a + b == b;
    }
  }

  lemma {:induction false} WithoutFileAppend(a: seq<Row>, b: seq<Row>, compid: int, filetype: string)
    ensures WithoutFile(a + b, compid, filetype) == WithoutFile(a, compid, filetype) + WithoutFile(b, compid, filetype)
    decreases |a|
  {
    if a != [] {
      WithoutFileAppend(a[1..], b, compid, filetype);
      assert (a + b)[1..] == a[1..] + b;
    } else {
      assert a + b == b;
    }
  }

  /** A file's rows after the DELETE of some file: none if it was this file, all of them otherwise. */
  lemma {:induction false} RowsOfWithoutFile(table: seq<Row>, compid: int, filetype: string, c: int, t: string)
    ensures RowsOf(WithoutFile(table, compid, filetype), c, t)
         == if c == compid && t == filetype then [] else RowsOf(table, c, t)
    decreases |table|
  {
    if table != [] {
      RowsOfWithoutFile(table[1..], compid, filetype, c, t);
    }
  }

  /** A file's rows among freshly numbered rows: all of them if it is their file, none otherwise. */
  lemma {:induction false} RowsOfNumbered(compid: int, filetype: string, lines: seq<string>, lineno: int, c: int, t: string)
    ensures RowsOf(Numbered(compid, filetype, lines, lineno), c, t)
         == if c == compid && t == filetype then Numbered(compid, filetype, lines, lineno) else []
    decreases |lines|
  {
    if lines != [] {
      RowsOfNumbered(compid, filetype, lines[1..], lineno + 1, c, t);
    }
  }

  lemma {:induction false} WithoutFileNumbered(compid: int, filetype: string, lines: seq<string>, lineno: int)
    ensures WithoutFile(Numbered(compid, filetype, lines, lineno), compid, filetype) == []
    decreases |lines|
  {
    if lines != [] {
      WithoutFileNumbered(compid, filetype, lines[1..], lineno + 1);
    }
  }

  lemma {:induction false} WithoutFileTwice(table: seq<Row>, compid: int, filetype: string)
    ensures WithoutFile(WithoutFile(table, compid, filetype), compid, filetype) == WithoutFile(table, compid, filetype)
    decreases |table|
  {
    if table != [] {
      WithoutFileTwice(table[1..], compid, filetype);
    }
  }

  /** After a write, the file's rows are exactly the new numbered lines: no row from before survives. */
  lemma RowsOfReplace(table: seq<Row>, compid: int, filetype: string, lines: seq<string>)
    ensures RowsOf(Replace(table, compid, filetype, lines), compid, filetype) == Numbered(compid, filetype, lines, 1)
  {
    RowsOfAppend(WithoutFile(table, compid, filetype), Numbered(compid, filetype, lines, 1), compid, filetype);
    RowsOfWithoutFile(table, compid, filetype, compid, filetype);
    RowsOfNumbered(compid, filetype, lines, 1, compid, filetype);
  }

  /** A write leaves the rows of every other file as they were. */
  lemma ReplaceKeepsOtherFiles(table: seq<Row>, compid: int, filetype: string, lines: seq<string>, c: int, t: string)
    requires c != compid || t != filetype
    ensures RowsOf(Replace(table, compid, filetype, lines), c, t) == RowsOf(table, c, t)
  {
    RowsOfAppend(WithoutFile(table, compid, filetype), Numbered(compid, filetype, lines, 1), c, t);
    RowsOfWithoutFile(table, compid, filetype, c, t);
    RowsOfNumbered(compid, filetype, lines, 1, c, t);
    assert RowsOf(table, c, t) + [] == RowsOf(table, c, t);
  }

  lemma NumberedStrictlyAscending(compid: int, filetype: string, lines: seq<string>, lineno: int)
    ensures StrictlyAscending(Numbered(compid, filetype, lines, lineno))
  {
    NumberedRows(compid, filetype, lines, lineno);
  }

  /** Round trip: reading a file right after writing `lines` gives back `lines`, in their order. */
  lemma ReadAfterWrite(table: seq<Row>, compid: int, filetype: string, lines: seq<string>)
    ensures Base64Column(Select(Replace(table, compid, filetype, lines), compid, filetype)) == lines
  {
    var rows := Numbered(compid, filetype, lines, 1);
    RowsOfReplace(table, compid, filetype, lines);
    NumberedStrictlyAscending(compid, filetype, lines, 1);
    SortAscendingUnchanged(rows);
    NumberedRows(compid, filetype, lines, 1);
  }

  /** Writing an empty list clears the file: a later read returns no lines. */
  lemma ReadAfterClear(table: seq<Row>, compid: int, filetype: string)
    ensures Select(Replace(table, compid, filetype, []), compid, filetype) == []
  {
    RowsOfReplace(table, compid, filetype, []);
  }

  /** Replace, not merge: a second write of the same file discards everything the first one wrote. */
  lemma ReplaceSupersedes(table: seq<Row>, compid: int, filetype: string, first: seq<string>, second: seq<string>)
    ensures Replace(Replace(table, compid, filetype, first), compid, filetype, second)
         == Replace(table, compid, filetype, second)
  {
    var kept := WithoutFile(table, compid, filetype);
    WithoutFileAppend(kept, Numbered(compid, filetype, first, 1), compid, filetype);
    WithoutFileTwice(table, compid, filetype);
    WithoutFileNumbered(compid, filetype, first, 1);
    assert kept + [] == kept;
  }

  /** Writing the same file twice with the same lines leaves the table as one write does. */
  lemma ReplaceIdempotent(table: seq<Row>, compid: int, filetype: string, lines: seq<string>)
    ensures Replace(Replace(table, compid, filetype, lines), compid, filetype, lines)
         == Replace(table, compid, filetype, lines)
  {
    ReplaceSupersedes(table, compid, filetype, lines, lines);
  }

  /** The table's key: no two rows share `(compid, filetype, lineno)`, and no row is stored twice. */
  predicate KeyUnique(table: seq<Row>) {
    && (forall r :: r in table ==> multiset(table)[r] <= 1)
    && (forall x, y ::
          x in table && y in table && x.compid == y.compid && x.filetype == y.filetype && x.lineno == y.lineno
          ==> x == y)
  }

  lemma KeyUniqueSubset(a: seq<Row>, b: seq<Row>)
    requires multiset(a) <= multiset(b) && KeyUnique(b)
    ensures KeyUnique(a)
  {
    forall x | x in a ensures x in b && multiset(a)[x] <= 1 {
      assert x in multiset(a);
      assert multiset(a)[x] <= multiset(b)[x];
    }
  }

  lemma KeyUniqueAppend(a: seq<Row>, b: seq<Row>)
    requires KeyUnique(a) && KeyUnique(b)
    requires forall x, y :: x in a && y in b ==> x.compid != y.compid || x.filetype != y.filetype || x.lineno != y.lineno
    ensures KeyUnique(a + b)
  {
    forall r | r in a + b ensures multiset(a + b)[r] <= 1 {
      assert multiset(a + b)[r] == multiset(a)[r] + multiset(b)[r];
      assert !(r in a && r in b);
    }
  }

  /** Numbered rows of one file sit at line numbers `lineno` .. `lineno + |lines| - 1`. */
  lemma {:induction false} NumberedBounds(compid: int, filetype: string, lines: seq<string>, lineno: int)
    ensures forall r :: r in Numbered(compid, filetype, lines, lineno) ==>
              OfFile(r, compid, filetype) && lineno <= r.lineno < lineno + |lines|
    decreases |lines|
  {
    if lines != [] {
      NumberedBounds(compid, filetype, lines[1..], lineno + 1);
    }
  }

  lemma {:induction false} NumberedKeyUnique(compid: int, filetype: string, lines: seq<string>, lineno: int)
    ensures KeyUnique(Numbered(compid, filetype, lines, lineno))
    decreases |lines|
  {
    if lines != [] {
      var head := Row(compid, filetype, lineno, lines[0]);
      var tail := Numbered(compid, filetype, lines[1..], lineno + 1);
      NumberedKeyUnique(compid, filetype, lines[1..], lineno + 1);
      NumberedBounds(compid, filetype, lines[1..], lineno + 1);
      KeyUniqueAppend([head], tail);
    }
  }

  /** A committed write never breaks the key, so its INSERT never meets a duplicate. */
  lemma ReplacePreservesKeyUnique(table: seq<Row>, compid: int, filetype: string, lines: seq<string>)
    requires KeyUnique(table)
    ensures KeyUnique(Replace(table, compid, filetype, lines))
  {
    var kept := WithoutFile(table, compid, filetype);
    var rows := Numbered(compid, filetype, lines, 1);
    PartitionByFile(table, compid, filetype);
    KeyUniqueSubset(kept, table);
    NumberedKeyUnique(compid, filetype, lines, 1);
    NumberedBounds(compid, filetype, lines, 1);
    KeyUniqueAppend(kept, rows);
  }

  lemma TwoPositionsCountTwice(s: seq<Row>, i: nat, j: nat)
    requires i < j < |s| && s[i] == s[j]
    ensures multiset(s)[s[i]] >= 2
  {
    assert s == s[..j] + s[j..];
    assert s[i] in s[..j];
    assert s[j] == s[j..][0];
  }

  /** Rows of one file in ascending order and with a unique key are in strictly ascending order. */
  lemma AscendingKeyUniqueIsStrict(rows: seq<Row>, compid: int, filetype: string)
    requires Ascending(rows) && KeyUnique(rows)
    requires forall r :: r in rows ==> OfFile(r, compid, filetype)
    ensures StrictlyAscending(rows)
  {
    forall i, j | 0 <= i < j < |rows| ensures rows[i].lineno < rows[j].lineno {
      if rows[i].lineno == rows[j].lineno {
        assert rows[i] in rows && rows[j] in rows;
        assert OfFile(rows[i], compid, filetype) && OfFile(rows[j], compid, filetype);
        assert rows[i] == rows[j];
        TwoPositionsCountTwice(rows, i, j);
        assert false;
      }
    }
  }

  /** In a strictly ascending sequence only the first row has the least line number. */
  lemma StrictHead(a: seq<Row>, x: Row)
    requires StrictlyAscending(a) && x in a
    ensures a[0].lineno <= x.lineno
    ensures x.lineno == a[0].lineno ==> x == a[0]
  {
    var i :| 0 <= i < |a| && a[i] == x;
    if i > 0 { assert a[0].lineno < a[i].lineno; }
  }

  lemma HeadsAgree(a: seq<Row>, b: seq<Row>)
    requires StrictlyAscending(a) && StrictlyAscending(b) && multiset(a) == multiset(b) && a != []
    ensures b != [] && a[0] == b[0]
  {
    assert a[0] in multiset(b);
    assert b[0] in multiset(a);
    StrictHead(a, b[0]);
    StrictHead(b, a[0]);
  }

  lemma StrictTail(a: seq<Row>)
    requires StrictlyAscending(a) && a != []
    ensures StrictlyAscending(a[1..])
  {
    forall i, j | 0 <= i < j < |a| - 1 ensures a[1..][i].lineno < a[1..][j].lineno {
      assert a[1..][i] == a[i + 1] && a[1..][j] == a[j + 1];
    }
  }

  lemma MultisetTail(a: seq<Row>)
    requires a != []
    ensures multiset(a[1..]) == multiset(a) - multiset{a[0]}
  {
    assert a == [a[0]] + a[1..];
    assert multiset(a) == multiset{a[0]} + multiset(a[1..]);
  }

  /** Two strictly ascending orders of the same rows are the same sequence. */
  lemma {:induction false} StrictOrderUnique(a: seq<Row>, b: seq<Row>)
    requires StrictlyAscending(a) && StrictlyAscending(b) && multiset(a) == multiset(b)
    ensures a == b
    decreases |a|
  {
    if a != [] {
      HeadsAgree(a, b);
      StrictTail(a);
      StrictTail(b);
      MultisetTail(a);
      MultisetTail(b);
      StrictOrderUnique(a[1..], b[1..]);
      assert a == [a[0]] + a[1..] && b == [b[0]] + b[1..];
    }
  }

  /**
   * `ORDER BY lineno` leaves the order of equal line numbers open; under the
   * table's key there are none, so every answer the database may give —
   * the file's rows, in ascending line order — is the one `Select` gives.
   */
  lemma OrderByLinenoDeterminate(table: seq<Row>, compid: int, filetype: string, records: seq<Row>)
    requires KeyUnique(table)
    requires multiset(records) == multiset(RowsOf(table, compid, filetype)) && Ascending(records)
    ensures records == Select(table, compid, filetype)
  {
    var rows := RowsOf(table, compid, filetype);
    var sorted := Select(table, compid, filetype);
    PartitionByFile(table, compid, filetype);
    KeyUniqueSubset(rows, table);
    SortByLinenoSpec(rows);
    KeyUniqueSubset(records, rows);
    KeyUniqueSubset(sorted, rows);
    forall r | r in records ensures OfFile(r, compid, filetype) { assert r in multiset(rows); }
    forall r | r in sorted ensures OfFile(r, compid, filetype) { assert r in multiset(rows); }
    AscendingKeyUniqueIsStrict(records, compid, filetype);
    AscendingKeyUniqueIsStrict(sorted, compid, filetype);
    StrictOrderUnique(records, sorted);
  }

  /** The row-building loop of the write path. */
  method BuildRowList(compid: int, filetype: string, file: seq<string>) returns (dataList: seq<Row>)
    ensures |dataList| == |file|
    ensures forall k :: 0 <= k < |file| ==> dataList[k] == Row(compid, filetype, k + 1, file[k])
    ensures dataList == Numbered(compid, filetype, file, 1)
  {
    var lineNo := 1;
    dataList := [];
    for i := 0 to |file|
      invariant lineNo == i + 1
      invariant |dataList| == i
      invariant forall k :: 0 <= k < i ==> dataList[k] == Row(compid, filetype, k + 1, file[k])
    {
      var d := Row(compid, filetype, lineNo, file[i]);
      lineNo := lineNo + 1;
      dataList := dataList + [d];
    }
    NumberedRows(compid, filetype, file, 1);
  }

  /** The read path's loop: `file.append(rec[3])` for each record. */
  method CollectContents(records: seq<Row>) returns (file: seq<string>)
    ensures |file| == |records|
    ensures forall k :: 0 <= k < |records| ==> file[k] == records[k].base64str
    ensures file == Base64Column(records)
  {
    file := [];
    for i := 0 to |records|
      invariant |file| == i
      invariant forall k :: 0 <= k < i ==> file[k] == records[k].base64str
    {
      file := file + [records[i].base64str];
    }
  }
}
