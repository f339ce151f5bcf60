/** Bulk inserts: `InsertMulti` and `InsertValueSQL` of `client/orm/db.go`, and the guard of
    `InsertMultiWithCtx` in `client/orm/orm.go`. */
module InsertMulti {
  import opened Text
  import opened ConditionSql
  import opened UpdateSql
  import opened Arithmetic

  type Row = seq<Value>

  function Flatten(rows: seq<Row>): seq<Value> { if rows == [] then [] else rows[0] + Flatten(rows[1..]) }

  lemma {:induction false} FlattenConcat(a: seq<Row>, b: seq<Row>)
    ensures Flatten(a + b) == Flatten(a) + Flatten(b)
  {
    if a == [] {
      assert a + b == b;
    } else {
      assert (a + b)[1..] == a[1..] + b;
      FlattenConcat(a[1..], b);
    }
  }

  lemma FlattenSnoc(rows: seq<Row>, r: Row)
    ensures Flatten(rows + [r]) == Flatten(rows) + r
  {
    FlattenConcat(rows, [r]);
    assert [r][1..] == [];
  }

  ghost predicate Width(rows: seq<Row>, w: nat) { forall i :: 0 <= i < |rows| ==> |rows[i]| == w }

  lemma {:induction false} FlattenLength(rows: seq<Row>, w: nat)
    requires Width(rows, w)
    ensures |Flatten(rows)| == |rows| * w
  {
    if rows != [] {
      FlattenLength(rows[1..], w);
    }
  }

  /** The rows in order, cut into batches of `bulk` rows, the last one possibly shorter. */
  ghost function Chunks(rows: seq<Row>, bulk: nat): seq<seq<Value>>
    requires bulk >= 1
    decreases |rows|
  {
    if rows == [] then []
    else if |rows| <= bulk then [Flatten(rows)]
    else [Flatten(rows[..bulk])] + Chunks(rows[bulk..], bulk)
  }

  lemma {:induction false} ChunksHoldAllRows(rows: seq<Row>, bulk: nat)
    requires bulk >= 1
    ensures Flatten(Chunks(rows, bulk)) == Flatten(rows)
    decreases |rows|
  {
    if rows == [] {
    } else if |rows| <= bulk {
      FlattenSnoc([], Flatten(rows));
    } else {
      ChunksHoldAllRows(rows[bulk..], bulk);
      FlattenConcat(rows[..bulk], rows[bulk..]);
      assert rows == rows[..bulk] + rows[bulk..];
      FlattenConcat([Flatten(rows[..bulk])], Chunks(rows[bulk..], bulk));
      FlattenSnoc([], Flatten(rows[..bulk]));
    }
  }

  /** Each batch is the values of at least one and at most `bulk` rows. */
  lemma {:induction false} ChunkSizes(rows: seq<Row>, bulk: nat, w: nat)
    requires bulk >= 1 && Width(rows, w)
    ensures forall c <- Chunks(rows, bulk) :: exists n :: 1 <= n <= bulk && |c| == n * w
    decreases |rows|
  {
    if rows == [] {
    } else if |rows| <= bulk {
      FlattenLength(rows, w);
    } else {
      FlattenLength(rows[..bulk], w);
      ChunkSizes(rows[bulk..], bulk, w);
    }
  }

  /** A full batch in front of the rest. */
  lemma {:induction false} ChunksExtend(rows: seq<Row>, bulk: nat, q: nat, more: seq<Row>)
    requires bulk >= 1 && |rows| == q * bulk && 0 < |more| <= bulk
    ensures Chunks(rows + more, bulk) == Chunks(rows, bulk) + [Flatten(more)]
    decreases q
  {
    if q == 0 {
      assert rows + more == more;
    } else {
      assert |rows| == (q - 1) * bulk + bulk;
      assert (rows + more)[..bulk] == rows[..bulk] && (rows + more)[bulk..] == rows[bulk..] + more;
      ChunksExtend(rows[bulk..], bulk, q - 1, more);
      if |rows| == bulk {
        assert rows[bulk..] == [] && rows[..bulk] == rows;
      }
    }
  }

  /** Go's `copy(values[from:], src)`: as many elements as fit. */
  method CopyInto(values: array<Value>, from: nat, src: seq<Value>) returns (n: nat)
    requires from <= values.Length
    modifies values
    ensures n == if |src| <= values.Length - from then |src| else values.Length - from
    ensures values[..from] == old(values[..from]) && values[from..from + n] == src[..n]
  {
    n := if |src| <= values.Length - from then |src| else values.Length - from;
    for i := 0 to n
      invariant values[..from] == old(values[..from]) && values[from..from + i] == src[..i]
    {
      values[from + i] := src[i];
    }
  }

  lemma BatchIsFull(i: nat, q: nat, bulk: nat)
    requires bulk >= 1 && q * bulk < i <= q * bulk + bulk
    ensures i % bulk == 0 <==> i == q * bulk + bulk
  {
    if i == q * bulk + bulk {
      assert i == (q + 1) * bulk;
      MultipleHasNoRemainder(q + 1, bulk);
    } else {
      RemainderOf(q, bulk, i - q * bulk);
    }
  }

  /** What a bulk size of one inserts: the second row is missing, because the first row is not
      flushed and fills the buffer. */
  ghost function Singles(rows: seq<Row>): seq<Row> { if |rows| <= 1 then rows else [rows[0]] + rows[2..] }

  ghost function Batches(rows: seq<Row>, bulk: nat): seq<seq<Value>>
    requires bulk >= 1
  {
    if bulk >= 2 then Chunks(rows, bulk) else Singles(rows)
  }

  /** The loop of `InsertMulti` after `n` rows, `f` of them in full batches: the batches inserted
      and what is buffered. */
  ghost predicate Loop(rows: seq<Row>, bulk: nat, n: nat, f: nat, batches: seq<seq<Value>>, buffer: seq<Value>)
    requires bulk >= 1 && n <= |rows|
  {
    if 0 < n == |rows| then batches == Batches(rows, bulk) && buffer == []
    else if bulk >= 2 then
      && f <= n < f + bulk
      && batches == Chunks(rows[..f], bulk) && buffer == Flatten(rows[f..n])
    else
      batches == (if n <= 1 then [] else Singles(rows[..n])) && buffer == if n == 1 then rows[0] else []
  }

  /** The same after `q` full batches. */
  ghost predicate LoopAt(rows: seq<Row>, bulk: nat, n: nat, q: nat, batches: seq<seq<Value>>, buffer: seq<Value>)
    requires bulk >= 1 && n <= |rows|
  {
    Loop(rows, bulk, n, q * bulk, batches, buffer)
  }

  predicate FlushDue(n: nat, length: nat, bulk: nat)
    requires bulk >= 1
  {
    (n > 1 && n % bulk == 0) || n == length
  }

  lemma BufferRoom(buffered: seq<Row>, w: nat, bulk: nat)
    requires |buffered| < bulk && Width(buffered, w)
    ensures |Flatten(buffered)| + w <= bulk * w
  {
    FlattenLength(buffered, w);
    MulMonotone(|buffered| + 1, bulk, w);
    assert (|buffered| + 1) * w == |buffered| * w + w;
  }

  lemma MulMonotone(a: nat, b: nat, w: nat)
    requires a <= b
    ensures a * w <= b * w
  {
  }

  lemma LoopStepMany(rows: seq<Row>, bulk: nat, n: nat, f: nat, q: nat, batches: seq<seq<Value>>, buffer: seq<Value>)
    requires bulk >= 2 && n < |rows| && f == q * bulk && Loop(rows, bulk, n, f, batches, buffer)
    ensures var buffer' := buffer + rows[n];
      if FlushDue(n + 1, |rows|, bulk) then Loop(rows, bulk, n + 1, f + bulk, batches + [buffer'], [])
      else Loop(rows, bulk, n + 1, f, batches, buffer')
  {
    assert rows[f..n + 1] == rows[f..n] + [rows[n]];
    FlattenSnoc(rows[f..n], rows[n]);
    BatchIsFull(n + 1, q, bulk);
    ChunksExtend(rows[..f], bulk, q, rows[f..n + 1]);
    assert rows[..f] + rows[f..n + 1] == rows[..n + 1];
    if n + 1 == |rows| {
      assert rows[..n + 1] == rows;
    } else if n + 1 == f + bulk {
      assert rows[n + 1..n + 1] == [];
    }
  }

  lemma SinglesSnoc(rows: seq<Row>, n: nat)
    requires 1 <= n < |rows|
    ensures Singles(rows[..n + 1]) == if n == 1 then [rows[0]] else Singles(rows[..n]) + [rows[n]]
  {
    if n > 1 {
      assert rows[..n + 1][2..] == rows[..n][2..] + [rows[n]];
    }
  }

  lemma LoopStepOne(rows: seq<Row>, n: nat, f: nat, f': nat, batches: seq<seq<Value>>, buffer: seq<Value>)
    requires n < |rows| && Loop(rows, 1, n, f, batches, buffer)
    ensures var buffer' := if n == 1 then buffer else buffer + rows[n];
      if FlushDue(n + 1, |rows|, 1) then Loop(rows, 1, n + 1, f', batches + [buffer'], [])
      else Loop(rows, 1, n + 1, f, batches, buffer')
  {
    assert rows[..|rows|] == rows;
    assert buffer + rows[n] == if n == 1 then buffer + rows[n] else rows[n];
    if n == 0 {
      assert |rows| == 1 ==> rows == [rows[0]];
    } else {
      SinglesSnoc(rows, n);
      assert n == 1 ==> batches + [buffer] == [rows[0]];
    }
  }

  /** What the next row makes of the buffer: it is appended, except the second row of a bulk
      size of one, which finds no room. */
  ghost function Buffered(rows: seq<Row>, bulk: nat, n: nat, buffer: seq<Value>): seq<Value>
    requires n < |rows|
  {
    if bulk == 1 && n == 1 then buffer else buffer + rows[n]
  }

  lemma LoopStep(rows: seq<Row>, bulk: nat, n: nat, q: nat, batches: seq<seq<Value>>, buffer: seq<Value>)
    requires bulk >= 1 && n < |rows| && LoopAt(rows, bulk, n, q, batches, buffer)
    ensures var buffer' := Buffered(rows, bulk, n, buffer);
      if FlushDue(n + 1, |rows|, bulk) then LoopAt(rows, bulk, n + 1, q + 1, batches + [buffer'], [])
      else LoopAt(rows, bulk, n + 1, q, batches, buffer')
  {
    var f, f' := q * bulk, (q + 1) * bulk;
    NextMultiple(q, bulk);
    if bulk >= 2 {
      LoopStepMany(rows, bulk, n, f, q, batches, buffer);
    } else {
      LoopStepOne(rows, n, f, f', batches, buffer);
    }
  }

  lemma NextMultiple(q: nat, bulk: nat)
    ensures (q + 1) * bulk == q * bulk + bulk
  {
  }

  lemma WidthSnoc(rows: seq<Row>, n: nat, w: nat)
    requires n < |rows| && Width(rows[..n], w) && |rows[n]| == w
    ensures Width(rows[..n + 1], w)
  {
    assert rows[..n + 1] == rows[..n] + [rows[n]];
  }

  lemma Room(rows: seq<Row>, w: nat, bulk: nat, cap: nat, n: nat, q: nat, batches: seq<seq<Value>>, buffer: seq<Value>)
    requires bulk >= 1 && cap == bulk * w && n < |rows| && Width(rows[..n], w) && LoopAt(rows, bulk, n, q, batches, buffer)
    ensures if bulk == 1 && n == 1 then |buffer| == cap else |buffer| + w <= cap
  {
    var f := q * bulk;
    if bulk >= 2 {
      assert forall i :: 0 <= i < n - f ==> rows[f..n][i] == rows[..n][f + i];
      BufferRoom(rows[f..n], w, bulk);
    } else if n == 1 {
      assert rows[..n][0] == rows[0];
    }
  }

  /** Row `n` is the first whose width differs from that of the first row. */
  ghost predicate OddRow(rows: seq<Row>, n: nat) {
    0 < n < |rows| && Width(rows[..n], |rows[0]|) && |rows[n]| != |rows[0]|
  }

  /** What was sent before row `n`: the full batches. */
  ghost function Sent(rows: seq<Row>, bulk: nat, n: nat): seq<seq<Value>>
    requires bulk >= 1 && n < |rows|
  {
    if bulk >= 2 then FullChunks(rows, bulk, n / bulk, n) else if n <= 1 then [] else Singles(rows[..n])
  }

  ghost function FullChunks(rows: seq<Row>, bulk: nat, q: nat, n: nat): seq<seq<Value>>
    requires bulk >= 1 && n <= |rows|
  {
    if q * bulk <= n then Chunks(rows[..q * bulk], bulk) else []
  }

  lemma SentSoFar(rows: seq<Row>, bulk: nat, n: nat, q: nat, batches: seq<seq<Value>>, buffer: seq<Value>)
    requires bulk >= 1 && n < |rows| && LoopAt(rows, bulk, n, q, batches, buffer)
    ensures batches == Sent(rows, bulk, n)
  {
    if bulk >= 2 {
      Quotient(n, q, bulk);
    }
  }

  lemma FailsAt(rows: seq<Row>, bulk: nat, n: nat, q: nat, batches: seq<seq<Value>>, buffer: seq<Value>)
    requires bulk >= 1 && n < |rows| && Running(rows, bulk, n, q, batches, buffer) && |rows[n]| != |rows[0]|
    ensures !Width(rows, |rows[0]|) && OddRow(rows, n) && batches == Sent(rows, bulk, n)
  {
    SentSoFar(rows, bulk, n, q, batches, buffer);
  }

  lemma Quotient(n: nat, q: nat, bulk: nat)
    requires bulk >= 1 && q * bulk <= n < q * bulk + bulk
    ensures n / bulk == q
  {
    var d := n / bulk - q;
    assert n == bulk * (n / bulk) + n % bulk;
    assert d * bulk == n / bulk * bulk - q * bulk;
    NoSmallMultiple(d, bulk);
  }

  datatype Outcome = Inserted(batches: seq<seq<Value>>) | ErrArgs(batches: seq<seq<Value>>)

  /** `InsertMulti`: `batches` are the value lists handed to `InsertValue`, one per statement.
      The caller guarantees a bulk size of at least two; with one, the second row is lost. */
  method InsertRows(rows: seq<Row>, bulk: nat) returns (r: Outcome)
    requires bulk >= 1
    ensures r.Inserted? <==> rows == [] || Width(rows, |rows[0]|)
    ensures r.Inserted? ==> r.batches == Batches(rows, bulk)
    ensures r.ErrArgs? ==> exists n :: OddRow(rows, n) && r.batches == Sent(rows, bulk, n)
  {
    var batches: seq<seq<Value>> := [];
    if rows == [] {
      return Inserted([]);
    }
    var w := |rows[0]|;
    var values := new Value[Capacity(bulk, w)](_ => Null);
    var nums: nat := 0;
    ghost var q := 0;
    RunningStarts(rows, bulk);
    assert values[..nums] == [];
    for n := 0 to |rows|
      invariant nums <= values.Length && values.Length == Capacity(bulk, w)
      invariant Running(rows, bulk, n, q, batches, values[..nums])
    {
      if |rows[n]| != w {
        FailsAt(rows, bulk, n, q, batches, values[..nums]);
        return ErrArgs(batches);
      }
      batches, nums, q := InsertStep(rows, bulk, n, values, nums, batches, q);
    }
    RunningEnds(rows, bulk, q, batches, values[..nums]);
    return Inserted(batches);
  }

  /** The loop with all rows so far as wide as the first. */
  ghost predicate Running(rows: seq<Row>, bulk: nat, n: nat, q: nat, batches: seq<seq<Value>>, buffer: seq<Value>)
    requires bulk >= 1 && n <= |rows|
  {
    rows != [] && Width(rows[..n], |rows[0]|) && LoopAt(rows, bulk, n, q, batches, buffer)
  }

  lemma RunningStarts(rows: seq<Row>, bulk: nat)
    requires bulk >= 1 && rows != []
    ensures Running(rows, bulk, 0, 0, [], [])
  {
    assert rows[0..0] == [] && rows[..0] == [];
  }

  lemma RunningStep(rows: seq<Row>, bulk: nat, cap: nat, n: nat, q: nat, batches: seq<seq<Value>>, buffer: seq<Value>)
    requires bulk >= 1 && n < |rows| && Running(rows, bulk, n, q, batches, buffer) && |rows[n]| == |rows[0]| && cap == Capacity(bulk, |rows[0]|)
    ensures if bulk == 1 && n == 1 then |buffer| == cap else |buffer| + |rows[0]| <= cap
    ensures var buffer' := Buffered(rows, bulk, n, buffer);
      if FlushDue(n + 1, |rows|, bulk) then Running(rows, bulk, n + 1, q + 1, batches + [buffer'], [])
      else Running(rows, bulk, n + 1, q, batches, buffer')
  {
    Room(rows, |rows[0]|, bulk, cap, n, q, batches, buffer);
    WidthSnoc(rows, n, |rows[0]|);
    LoopStep(rows, bulk, n, q, batches, buffer);
  }

  lemma RunningEnds(rows: seq<Row>, bulk: nat, q: nat, batches: seq<seq<Value>>, buffer: seq<Value>)
    requires bulk >= 1 && Running(rows, bulk, |rows|, q, batches, buffer)
    ensures Width(rows, |rows[0]|) && batches == Batches(rows, bulk)
  {
    assert rows[..|rows|] == rows;
  }

  function Capacity(bulk: nat, w: nat): nat { bulk * w }

  /** The body of the loop for a row of the right width. */
  method InsertStep(rows: seq<Row>, bulk: nat, n: nat, values: array<Value>, nums: nat, batches: seq<seq<Value>>, ghost q: nat)
    returns (batches': seq<seq<Value>>, nums': nat, ghost q': nat)
    requires bulk >= 1 && n < |rows| && |rows[n]| == |rows[0]|
    requires nums <= values.Length == Capacity(bulk, |rows[0]|) && Running(rows, bulk, n, q, batches, values[..nums])
    modifies values
    ensures nums' <= values.Length && Running(rows, bulk, n + 1, q', batches', values[..nums'])
  {
    RunningStep(rows, bulk, values.Length, n, q, batches, values[..nums]);
    batches', q' := batches, q;
    nums' := BufferRow(rows, bulk, n, |rows[0]|, values, nums);
    if FlushDue(n + 1, |rows|, bulk) {
      batches' := batches + [values[..nums']];
      nums' := 0;
      q' := q + 1;
      assert values[..nums'] == [];
    }
  }

  /** `nums += copy(values[nums:], vus)`. */
  method BufferRow(rows: seq<Row>, ghost bulk: nat, n: nat, ghost w: nat, values: array<Value>, nums: nat) returns (r: nat)
    requires n < |rows| && |rows[n]| == w && nums <= values.Length
    requires if bulk == 1 && n == 1 then nums == values.Length else nums + w <= values.Length
    modifies values
    ensures r <= values.Length && values[..r] == Buffered(rows, bulk, n, old(values[..nums]))
  {
    var copied := CopyInto(values, nums, rows[n]);
    r := nums + copied;
    assert values[..r] == values[..nums] + values[nums..r];
  }

  /** All rows reach the database, in order, exactly when the bulk size is at least two (or
      there is nothing to batch): the guard of `InsertMultiWithCtx`, which handles a bulk size
      of one or less row by row, is what makes the batching safe. */
  lemma AllRowsInsertedIff(rows: seq<Row>, bulk: nat, w: nat)
    requires bulk >= 1 && w >= 1 && Width(rows, w)
    ensures Flatten(Batches(rows, bulk)) == Flatten(rows) <==> bulk >= 2 || |rows| <= 1
  {
    if bulk >= 2 {
      ChunksHoldAllRows(rows, bulk);
    } else if |rows| >= 2 {
      SinglesLoseARow(rows, w);
    }
  }

  /** Two rows, one at a time: the second is lost. */
  lemma SecondRowIsLost(a: Row, b: Row)
    ensures Batches([a, b], 1) == [a]
  {
    assert [a, b][2..] == [];
  }

  lemma SinglesLoseARow(rows: seq<Row>, w: nat)
    requires w >= 1 && Width(rows, w) && |rows| >= 2
    ensures |Flatten(Singles(rows))| < |Flatten(rows)|
  {
    var singles := Singles(rows);
    assert |singles| == |rows| - 1 && Width(singles, w);
    FlattenLength(rows, w);
    FlattenLength(singles, w);
    OneRowLess(|rows|, w);
  }

  lemma OneRowLess(n: int, w: int)
    requires w >= 1
    ensures (n - 1) * w < n * w
  {
    assert (n - 1) * w == n * w - w;
  }

  // ---- the statement of one batch ----

  /** The first `n` columns of the column list. */
  function NameList(quote: string, names: seq<string>, n: nat): string
    requires n <= |names|
  {
    if n == 0 then "" else NameList(quote, names, n - 1) + (if n > 1 then ", " else "") + (quote + names[n - 1] + quote)
  }

  /** The placeholders of `n` rows. */
  function Groups(qmarks: string, n: nat): string
    requires n >= 1
  {
    if n == 1 then qmarks else Groups(qmarks, n - 1) + ("), (" + qmarks)
  }

  function InsertHead(quote: string, table: string, names: seq<string>): string {
    "INSERT INTO " + (quote + table + quote) + " (" + NameList(quote, names, |names|) + ") VALUES ("
  }

  /** The statement that inserts `n` rows. */
  function InsertText(quote: string, table: string, names: seq<string>, n: nat): string
    requires n >= 1
  {
    InsertHead(quote, table, names) + Groups(MarkList(|names|), n) + ")"
  }

  /** How many rows `InsertValueSQL` writes placeholders for. */
  function RowCount(names: seq<string>, values: seq<Value>, isMulti: bool): (n: nat)
    requires names != []
    ensures n >= 1
  {
    var multi := |values| / |names|;
    if isMulti && multi > 1 then multi else 1
  }

  /** `InsertValueSQL` up to `ReplaceMarks`. */
  method InsertValueSQL(quote: string, table: string, names: seq<string>, values: seq<Value>, isMulti: bool) returns (query: string)
    requires names != []
    ensures query == InsertText(quote, table, names, RowCount(names, values, isMulti))
  {
    query := "INSERT INTO " + (quote + table + quote) + " (";
    ghost var open := query;
    for i := 0 to |names|
      invariant query == open + NameList(quote, names, i)
    {
      Associates(open, NameList(quote, names, i), if i > 0 then ", " else "");
      Associates(open, NameList(quote, names, i) + (if i > 0 then ", " else ""), quote + names[i] + quote);
      query := query + (if i > 0 then ", " else "") + (quote + names[i] + quote);
    }
    query := query + ") VALUES (";
    var qmarks := MarkList(|names|);
    query := query + qmarks;
    ghost var head := InsertHead(quote, table, names);
    var multi := |values| / |names|;
    if isMulti && multi > 1 {
      for i := 0 to multi - 1
        invariant query == head + Groups(qmarks, i + 1)
      {
        Associates(head, Groups(qmarks, i + 1), "), (" + qmarks);
        query := query + ("), (" + qmarks);
      }
    }
    query := query + ")";
  }

  lemma {:induction false} NameListMarkFree(quote: string, names: seq<string>, n: nat)
    requires n <= |names| && '?' !in quote && forall i :: 0 <= i < |names| ==> '?' !in names[i]
    ensures Marks(NameList(quote, names, n)) == 0
  {
    if n > 0 {
      var front, sep, last := NameList(quote, names, n - 1), if n > 1 then ", " else "", quote + names[n - 1] + quote;
      NameListMarkFree(quote, names, n - 1);
      NoMarks(sep);
      NoMarks(last);
      MarksConcat(front, sep);
      MarksConcat(front + sep, last);
    }
  }

  lemma {:induction false} GroupMarks(w: nat, n: nat)
    requires n >= 1
    ensures Marks(Groups(MarkList(w), n)) == n * w
  {
    var qmarks := MarkList(w);
    MarkListCount(w);
    if n > 1 {
      GroupMarks(w, n - 1);
      NoMarks("), (");
      MarksConcat("), (", qmarks);
      MarksConcat(Groups(qmarks, n - 1), "), (" + qmarks);
      NextMultiple(n - 1, w);
    }
  }

  lemma HeadMarkFree(quote: string, table: string, names: seq<string>)
    requires '?' !in quote && '?' !in table && forall i :: 0 <= i < |names| ==> '?' !in names[i]
    ensures Marks(InsertHead(quote, table, names)) == 0
  {
    var open, list := "INSERT INTO " + (quote + table + quote) + " (", NameList(quote, names, |names|);
    NoMarks(open);
    NameListMarkFree(quote, names, |names|);
    MarksConcat(open, list);
    NoMarks(") VALUES (");
    MarksConcat(open + list, ") VALUES (");
  }

  /** With names free of question marks, a statement has one group of placeholders per row: as
      many placeholders as values whenever the values are whole rows of a multi-row insert, or
      one row. */
  lemma InsertPlaceholders(quote: string, table: string, names: seq<string>, values: seq<Value>, isMulti: bool)
    requires names != [] && '?' !in quote && '?' !in table && forall i :: 0 <= i < |names| ==> '?' !in names[i]
    ensures var query := InsertText(quote, table, names, RowCount(names, values, isMulti));
      && (isMulti && values != [] && |values| % |names| == 0 ==> Marks(query) == |values|)
      && (|values| == |names| ==> Marks(query) == |values|)
  {
    var n := RowCount(names, values, isMulti);
    var head, groups := InsertHead(quote, table, names), Groups(MarkList(|names|), n);
    HeadMarkFree(quote, table, names);
    GroupMarks(|names|, n);
    MarksConcat(head, groups);
    NoMarks(")");
    MarksConcat(head + groups, ")");
    RowsOfValues(|values|, |names|);
  }

  lemma RowsOfValues(n: nat, w: nat)
    requires w >= 1
    ensures n > 0 && n % w == 0 ==> n / w >= 1 && n / w * w == n
    ensures n < 2 * w ==> n / w <= 1
  {
    assert n == w * (n / w) + n % w;
    NoSmallMultiple(n / w - 1, w);
    assert (n / w - 1) * w == n / w * w - w;
  }

  /** Every batch of `InsertMulti` gets as many placeholders as it has values. */
  lemma BatchesAreWholeRows(rows: seq<Row>, bulk: nat, w: nat)
    requires bulk >= 2 && w >= 1 && Width(rows, w)
    ensures forall c <- Batches(rows, bulk) :: c != [] && |c| % w == 0 && |c| <= bulk * w
  {
    ChunkSizes(rows, bulk, w);
    forall c | c in Chunks(rows, bulk)
      ensures c != [] && |c| % w == 0 && |c| <= bulk * w
    {
      var n :| 1 <= n <= bulk && |c| == n * w;
      MultipleHasNoRemainder(n, w);
      MulMonotone(n, bulk, w);
      MulMonotone(1, n, w);
    }
  }

  /** `InsertMultiWithCtx`: for every bulk size, the rows reach the database in order, each
      exactly once. */
  method InsertMultiWithCtx(rows: seq<Row>, bulk: int) returns (r: Outcome)
    ensures rows == [] ==> r == ErrArgs([])
    ensures rows != [] && (bulk <= 1 || Width(rows, |rows[0]|)) ==> r.Inserted? && Flatten(r.batches) == Flatten(rows)
    ensures rows != [] && bulk >= 2 && !Width(rows, |rows[0]|) ==> r.ErrArgs?
  {
    if rows == [] {
      return ErrArgs([]);
    }
    if bulk <= 1 {
      var batches: seq<seq<Value>> := [];
      for i := 0 to |rows|
        invariant batches == rows[..i]
      {
        batches := batches + [rows[i]];
      }
      assert rows[..|rows|] == rows;
      return Inserted(batches);
    }
    ChunksHoldAllRows(rows, bulk);
    r := InsertRows(rows, bulk);
  }
}
