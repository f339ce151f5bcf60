/** What an INSERT of `InsertValueSQL` (`client/orm/db.go`) stores: its text read back, and the
    values given to the columns it names. */
module InsertMeaning {
  import opened Text
  import opened ConditionSql
  import opened UpdateSql
  import opened InsertMulti
  import opened SetMeaning
  import OperatorMeaning
  import opened Arithmetic

  // ---- a reader of the statement ----

  /** The columns and the number of placeholders of each row. */
  datatype Insert = Insert(cols: seq<string>, rows: seq<nat>)

  function UpToClose(s: string): string { Split(s, ')')[0] }

  function ReadColumns(quote: char, texts: seq<string>): Option<seq<string>> {
    if texts == [] then Some([])
    else
      var n := |texts| - 1;
      var front, last := ReadColumns(quote, texts[..n]), ReadColumn(quote, Trimmed(texts[n]));
      if front.None? || last.None? then None else Some(front.value + [last.value])
  }

  function ReadRows(texts: seq<string>): Option<seq<nat>> {
    if texts == [] then Some([])
    else
      var n := |texts| - 1;
      var front, last := ReadRows(texts[..n]), OperatorMeaning.ReadList(UpToClose(texts[n]));
      if front.None? || last.None? then None else Some(front.value + [last.value])
  }

  /** Columns in the first parentheses, one row in each of the others. */
  function ReadInsert(quote: char, text: string): Option<Insert> {
    var parts := Split(text, '(');
    if |parts| < 3 then None
    else
      var cols, rows := ReadColumns(quote, Split(UpToClose(parts[1]), ',')), ReadRows(parts[2..]);
      if cols.None? || rows.None? then None else Some(Insert(cols.value, rows.value))
  }

  /** The rows the statement inserts: the values in order, each row naming its columns. */
  function Rows(ins: Insert, values: seq<Value>): seq<seq<(string, Value)>>
    decreases |ins.rows|
  {
    if ins.rows == [] || ins.rows[0] > |values| || ins.rows[0] != |ins.cols| then []
    else [Paired(ins.cols, values[..|ins.cols|])] + Rows(Insert(ins.cols, ins.rows[1..]), values[|ins.cols|..])
  }

  function Paired(cols: seq<string>, values: seq<Value>): seq<(string, Value)>
    requires |cols| == |values|
  {
    seq(|cols|, j requires 0 <= j < |cols| => (cols[j], values[j]))
  }

  // ---- the text reads back ----

  ghost predicate PlainIn(name: string, quote: char) { quote !in name && ',' !in name && '(' !in name && ')' !in name }

  ghost predicate PlainMark(quote: char) { quote != ',' && quote != '(' && quote != ')' && quote != ' ' }

  lemma ColumnReads(quote: char, name: string)
    requires PlainIn(name, quote) && PlainMark(quote)
    ensures var item := [quote] + name + [quote];
      && ReadColumn(quote, Trimmed(item)) == Some(name) && ReadColumn(quote, Trimmed(" " + item)) == Some(name)
      && ',' !in item
  {
    var item := [quote] + name + [quote];
    assert (" " + item)[1..] == item;
    SplitNone("", quote);
    SplitPrefix(name, quote, "");
    SplitPrefix("", quote, name + [quote] + "");
    assert "" + [quote] + (name + [quote] + "") == item;
  }

  lemma OneMoreColumn(quote: char, texts: seq<string>, text: string, done: seq<string>, name: string)
    requires ReadColumns(quote, texts) == Some(done) && ReadColumn(quote, Trimmed(text)) == Some(name)
    ensures ReadColumns(quote, texts + [text]) == Some(done + [name])
  {
    assert (texts + [text])[..|texts|] == texts;
  }

  lemma {:induction false} NamesRead(quote: char, names: seq<string>, n: nat)
    requires 0 < n <= |names| && PlainMark(quote) && forall name <- names :: PlainIn(name, quote)
    ensures ReadColumns(quote, Split(NameList([quote], names, n), ',')) == Some(names[..n])
  {
    var name := names[n - 1];
    var item := [quote] + name + [quote];
    ColumnReads(quote, name);
    assert names[..n] == names[..n - 1] + [name];
    if n == 1 {
      assert NameList([quote], names, 0) + "" + item == item;
      SplitNone(item, ',');
      var none: seq<string>, front: seq<string> := [], [];
      assert ReadColumns(quote, front) == Some(none);
      OneMoreColumn(quote, front, item, none, name);
      assert front + [item] == [item] && none + [name] == names[..1];
    } else {
      NamesRead(quote, names, n - 1);
      var before := NameList([quote], names, n - 1);
      assert before + ", " + item == before + [','] + (" " + item);
      SplitLast(before, ',', " " + item);
      OneMoreColumn(quote, Split(before, ','), " " + item, names[..n - 1], name);
    }
  }

  lemma {:induction false} NamesPlain(quote: char, names: seq<string>, n: nat)
    requires n <= |names| && PlainMark(quote) && forall name <- names :: PlainIn(name, quote)
    ensures '(' !in NameList([quote], names, n) && ')' !in NameList([quote], names, n)
  {
    if n > 0 {
      NamesPlain(quote, names, n - 1);
      assert PlainIn(names[n - 1], quote);
    }
  }

  lemma {:induction false} MarksPlain(n: nat)
    ensures '(' !in MarkList(n) && ')' !in MarkList(n)
  {
    if n > 1 {
      MarksPlain(n - 1);
    }
  }

  lemma GroupReads(w: nat, tail: string)
    requires w > 0 && tail != [] && tail[0] == ')'
    ensures OperatorMeaning.ReadList(UpToClose(MarkList(w) + tail)) == Some(w)
  {
    MarksPlain(w);
    ListEnds(MarkList(w), tail[1..]);
    assert MarkList(w) + tail == MarkList(w) + [')'] + tail[1..];
    OperatorMeaning.ListReads(w);
  }

  lemma OneMoreRow(texts: seq<string>, text: string, done: seq<nat>, w: nat)
    requires ReadRows(texts) == Some(done) && OperatorMeaning.ReadList(UpToClose(text)) == Some(w)
    ensures ReadRows(texts + [text]) == Some(done + [w])
  {
    assert (texts + [text])[..|texts|] == texts;
  }

  function Times(n: nat, w: nat): seq<nat> { seq(n, i => w) }

  lemma FirstRow(last: string, w: nat)
    requires '(' !in last && OperatorMeaning.ReadList(UpToClose(last)) == Some(w)
    ensures ReadRows(Split(last, '(')) == Some(Times(1, w))
  {
    SplitNone(last, '(');
    var none: seq<nat>, front: seq<string> := [], [];
    assert ReadRows(front) == Some(none);
    OneMoreRow(front, last, none, w);
    assert front + [last] == [last] && none + [w] == Times(1, w);
  }

  lemma NextRow(before: string, last: string, n: nat, w: nat)
    requires ReadRows(Split(before, '(')) == Some(Times(n, w))
    requires '(' !in last && OperatorMeaning.ReadList(UpToClose(last)) == Some(w)
    ensures ReadRows(Split(before + ['('] + last, '(')) == Some(Times(n + 1, w))
  {
    SplitLast(before, '(', last);
    OneMoreRow(Split(before, '('), last, Times(n, w), w);
    assert Times(n, w) + [w] == Times(n + 1, w);
  }

  lemma NextGroup(marks: string, n: nat, tail: string)
    requires n > 1
    ensures Groups(marks, n) + tail == Groups(marks, n - 1) + "), " + ['('] + (marks + tail)
  {
  }

  lemma {:induction false} GroupsRead(w: nat, n: nat, tail: string)
    requires w > 0 && n > 0 && tail != [] && tail[0] == ')' && '(' !in tail
    ensures ReadRows(Split(Groups(MarkList(w), n) + tail, '(')) == Some(Times(n, w))
    decreases n
  {
    var marks := MarkList(w);
    var last := marks + tail;
    MarksPlain(w);
    GroupReads(w, tail);
    if n == 1 {
      FirstRow(last, w);
    } else {
      GroupsRead(w, n - 1, "), ");
      NextRow(Groups(marks, n - 1) + "), ", last, n - 1, w);
      NextGroup(marks, n, tail);
    }
  }

  lemma Shape(start: string, list: string, rows: string)
    ensures start + " (" + list + ") VALUES (" + rows + ")" ==
            (start + " ") + ['('] + ((list + ") VALUES ") + ['('] + (rows + ")"))
  {
  }

  lemma ThreeParts(start: string, list: string, rows: string)
    requires '(' !in start && '(' !in list
    ensures var parts := Split(start + " (" + list + ") VALUES (" + rows + ")", '(');
      |parts| >= 3 && parts[1] == list + ") VALUES " && parts[2..] == Split(rows + ")", '(')
  {
    Shape(start, list, rows);
    SplitPrefix(start + " ", '(', (list + ") VALUES ") + ['('] + (rows + ")"));
    SplitPrefix(list + ") VALUES ", '(', rows + ")");
  }

  lemma PartsOfText(quote: char, table: string, names: seq<string>, n: nat)
    requires n >= 1 && PlainMark(quote) && '(' !in table && forall name <- names :: PlainIn(name, quote)
    ensures var parts := Split(InsertText([quote], table, names, n), '(');
      && |parts| >= 3 && parts[1] == NameList([quote], names, |names|) + ") VALUES "
      && parts[2..] == Split(Groups(MarkList(|names|), n) + ")", '(')
  {
    NamesPlain(quote, names, |names|);
    ThreeParts("INSERT INTO " + ([quote] + table + [quote]), NameList([quote], names, |names|), Groups(MarkList(|names|), n));
  }

  lemma ListEnds(list: string, tail: string)
    requires ')' !in list
    ensures UpToClose(list + [')'] + tail) == list
  {
    SplitPrefix(list, ')', tail);
  }

  lemma ColumnsOfText(quote: char, names: seq<string>)
    requires names != [] && PlainMark(quote) && forall name <- names :: PlainIn(name, quote)
    ensures ReadColumns(quote, Split(UpToClose(NameList([quote], names, |names|) + ") VALUES "), ',')) == Some(names)
  {
    NamesPlain(quote, names, |names|);
    var list := NameList([quote], names, |names|);
    assert list + ") VALUES " == list + [')'] + " VALUES ";
    ListEnds(list, " VALUES ");
    NamesRead(quote, names, |names|);
    assert names[..|names|] == names;
  }

  /** The statement for `n` rows names the given columns, in order, and has one placeholder for
      each of them in each row. */
  lemma InsertReads(quote: char, table: string, names: seq<string>, n: nat)
    requires n >= 1 && names != [] && PlainMark(quote) && '(' !in table && forall name <- names :: PlainIn(name, quote)
    ensures ReadInsert(quote, InsertText([quote], table, names, n)) == Some(Insert(names, Times(n, |names|)))
  {
    PartsOfText(quote, table, names, n);
    ColumnsOfText(quote, names);
    GroupsRead(|names|, n, ")");
  }

  lemma {:induction false} RowsAreStored(names: seq<string>, rows: seq<InsertMulti.Row>)
    requires Width(rows, |names|)
    ensures Rows(Insert(names, Times(|rows|, |names|)), Flatten(rows)) ==
            seq(|rows|, i requires 0 <= i < |rows| => Paired(names, rows[i]))
  {
    if rows != [] {
      RowsAreStored(names, rows[1..]);
      assert Times(|rows|, |names|)[1..] == Times(|rows| - 1, |names|);
      assert Flatten(rows)[..|names|] == rows[0] && Flatten(rows)[|names|..] == Flatten(rows[1..]);
    }
  }

  /** Reading the statement for a batch and giving it the values of the batch stores every row,
      with the j-th value in the j-th column. */
  lemma BatchIsStored(quote: char, table: string, names: seq<string>, rows: seq<InsertMulti.Row>)
    requires rows != [] && names != [] && Width(rows, |names|)
    requires PlainMark(quote) && '(' !in table && forall name <- names :: PlainIn(name, quote)
    ensures var values := Flatten(rows);
      var read := ReadInsert(quote, InsertText([quote], table, names, RowCount(names, values, true)));
      read.Some? && Rows(read.value, values) == seq(|rows|, i requires 0 <= i < |rows| => Paired(names, rows[i]))
  {
    var values := Flatten(rows);
    FlattenLength(rows, |names|);
    WholeRows(|rows|, |names|);
    InsertReads(quote, table, names, |rows|);
    RowsAreStored(names, rows);
  }

  lemma WholeRows(n: nat, w: nat)
    requires w >= 1
    ensures n * w / w == n
  {
    RowsOfValues(n * w, w);
    if n > 0 {
      MultipleHasNoRemainder(n, w);
      NoSmallMultiple(n, w);
      SameFactor(n * w / w, n, w);
    }
  }

  lemma SameFactor(a: int, b: int, w: int)
    requires w >= 1 && a * w == b * w
    ensures a == b
  {
    assert (a - b) * w == 0;
    NoSmallMultiple(a - b, w);
  }
}
