/**
  What the assignments of an UPDATE do: the text that `buildSetSQL` of `client/orm/db.go` writes,
  read as a database reads it, and run on a row.
 */
module SetMeaning {
  import opened Text
  import opened ConditionSql
  import opened UpdateSql

  // ---- a reader of assignments ----

  datatype Operation = Plus | Minus | Times | Over | BitAnd | ShiftRight | ShiftLeft | BitXor | BitOr | Power

  /** What a column gets: the bound value, or its own value changed with it. */
  datatype Update = Store | Apply(op: Operation)

  datatype Assignment = Assignment(col: string, update: Update)

  /** The operation a sign stands for.  PostgreSQL reads "^" as a power. */
  function OperationOf(dialect: Dialect, sign: string): Option<Operation> {
    if sign == "+" then Some(Plus)
    else if sign == "-" then Some(Minus)
    else if sign == "*" then Some(Times)
    else if sign == "/" then Some(Over)
    else if sign == "&" then Some(BitAnd)
    else if sign == ">>" then Some(ShiftRight)
    else if sign == "<<" then Some(ShiftLeft)
    else if sign == "|" then Some(BitOr)
    else if sign == "^" then Some(if dialect.Postgres? then Power else BitXor)
    else None
  }

  /** The right side: a placeholder, or the column again, a sign and a placeholder. */
  function ReadSource(dialect: Dialect, name: string, rhs: string): Option<Update> {
    if rhs == "?" then Some(Store)
    else if |rhs| < |name| || rhs[..|name|] != name then None
    else
      var words := Split(rhs[|name|..], ' ');
      if |words| != 3 || words[0] != "" || words[2] != "?" then None
      else match OperationOf(dialect, words[1]) case None => None case Some(op) => Some(Apply(op))
  }

  /** The column between the quotes. */
  function ReadColumn(quote: char, name: string): Option<string> {
    var parts := Split(name, quote);
    if |parts| == 3 && parts[2] == "" then Some(parts[1]) else None
  }

  /** `name = source`. */
  function ReadAssignment(dialect: Dialect, quote: char, text: string): Option<Assignment> {
    var sides := Split(text, '=');
    if |sides| != 2 || |sides[0]| < 1 || |sides[1]| < 1 then None
    else
      var name := sides[0][..|sides[0]| - 1];
      var col, update := ReadColumn(quote, name), ReadSource(dialect, name, sides[1][1..]);
      if col.None? || update.None? then None else Some(Assignment(col.value, update.value))
  }

  /** Without one leading space. */
  function Trimmed(s: string): string { if s != [] && s[0] == ' ' then s[1..] else s }

  function ReadEach(dialect: Dialect, quote: char, texts: seq<string>): Option<seq<Assignment>> {
    if texts == [] then Some([])
    else
      var n := |texts| - 1;
      var front, last := ReadEach(dialect, quote, texts[..n]), ReadAssignment(dialect, quote, Trimmed(texts[n]));
      if front.None? || last.None? then None else Some(front.value + [last.value])
  }

  /** The list of assignments behind "SET ". */
  function ReadAssignments(dialect: Dialect, quote: char, text: string): Option<seq<Assignment>> {
    ReadEach(dialect, quote, Split(text, ','))
  }

  // ---- what a value to store asks for ----

  /** `ColValue(op, n)` changes the column by `n`, anything else is stored. */
  function Asked(a: Arg): Update {
    match a
    case Plain(_) => Store
    case Change(op, _) =>
      Apply(match op
            case ColAdd => Plus
            case ColMinus => Minus
            case ColMultiply => Times
            case ColExcept => Over
            case ColBitAnd => BitAnd
            case ColBitRShift => ShiftRight
            case ColBitLShift => ShiftLeft
            case ColBitXOR => BitXor
            case ColBitOr => BitOr)
  }

  /** The one change that PostgreSQL reads as another. */
  predicate Misread(dialect: Dialect, a: Arg) { dialect.Postgres? && a.Change? && a.op.ColBitXOR? }

  /** What the database will do. */
  function Effect(dialect: Dialect, a: Arg): Update { if Misread(dialect, a) then Apply(Power) else Asked(a) }

  // ---- the text reads back ----

  /** A name that does not hold the signs the list is cut at. */
  ghost predicate PlainName(name: string, quote: char) { ',' !in name && '=' !in name && quote !in name }

  ghost predicate PlainQuote(quote: char) { quote != ',' && quote != '=' && quote != ' ' }

  lemma NameReads(owner: string, quote: char, col: string)
    requires PlainName(owner, quote) && PlainName(col, quote)
    ensures ReadColumn(quote, owner + [quote] + col + [quote]) == Some(col)
  {
    SplitNone("", quote);
    SplitPrefix(col, quote, "");
    SplitPrefix(owner, quote, col + [quote] + "");
    assert owner + [quote] + (col + [quote] + "") == owner + [quote] + col + [quote];
  }

  /** The sign of an operator, without the spaces around it, and the operation it stands for. */
  lemma SignReads(dialect: Dialect, op: ColOp) returns (sign: string)
    ensures OpSign(op) + "?" == [' '] + sign + [' '] + "?" && ' ' !in sign
    ensures OperationOf(dialect, sign) == Some(Effect(dialect, Change(op, 0)).op)
  {
    sign := match op
      case ColAdd => "+"
      case ColMinus => "-"
      case ColMultiply => "*"
      case ColExcept => "/"
      case ColBitAnd => "&"
      case ColBitRShift => ">>"
      case ColBitLShift => "<<"
      case ColBitXOR => "^"
      case ColBitOr => "|";
    assert OpSign(op) == [' '] + sign + [' '];
  }

  lemma ChangeReads(dialect: Dialect, name: string, sign: string, op: Operation)
    requires |name| >= 2 && ' ' !in sign && OperationOf(dialect, sign) == Some(op)
    ensures ReadSource(dialect, name, name + ([' '] + sign + [' '] + "?")) == Some(Apply(op))
  {
    var rest := [' '] + sign + [' '] + "?";
    var rhs := name + rest;
    assert rhs[..|name|] == name && rhs[|name|..] == rest;
    SplitNone("?", ' ');
    SplitPrefix(sign, ' ', "?");
    SplitPrefix("", ' ', sign + [' '] + "?");
    assert "" + [' '] + (sign + [' '] + "?") == rest;
  }

  lemma SourceReads(dialect: Dialect, name: string, a: Arg)
    requires |name| >= 2
    ensures ReadSource(dialect, name, match a case Plain(_) => "?" case Change(op, _) => name + (OpSign(op) + "?")) ==
            Some(Effect(dialect, a))
  {
    if a.Change? {
      var sign := SignReads(dialect, a.op);
      ChangeReads(dialect, name, sign, Effect(dialect, a).op);
    }
  }

  lemma SignsPlain(op: ColOp)
    ensures ',' !in OpSign(op) && '=' !in OpSign(op)
  {
  }

  lemma ItemReads(dialect: Dialect, owner: string, quote: char, col: string, a: Arg)
    requires PlainQuote(quote) && PlainName(owner, quote) && PlainName(col, quote)
    ensures ReadAssignment(dialect, quote, SetItem(owner, [quote], col, a)) == Some(Assignment(col, Effect(dialect, a)))
    ensures ',' !in SetItem(owner, [quote], col, a)
  {
    var name := owner + [quote] + col + [quote];
    var rhs := match a case Plain(_) => "?" case Change(op, _) => name + (OpSign(op) + "?");
    NameReads(owner, quote, col);
    SourceReads(dialect, name, a);
    if a.Change? {
      SignsPlain(a.op);
    }
    assert '=' !in name && '=' !in rhs && ',' !in name && ',' !in rhs;
    CutAtEquals(name, rhs);
  }

  lemma CutAtEquals(name: string, rhs: string)
    requires '=' !in name && '=' !in rhs
    ensures Split(name + " = " + rhs, '=') == [name + " ", " " + rhs]
    ensures (name + " ")[..|name + " "| - 1] == name && (" " + rhs)[1..] == rhs
  {
    SplitNone(" " + rhs, '=');
    SplitPrefix(name + " ", '=', " " + rhs);
    assert name + " = " + rhs == (name + " ") + ['='] + (" " + rhs);
  }

  lemma {:induction false} SplitLast(s: string, sep: char, p: string)
    requires sep !in p
    ensures Split(s + [sep] + p, sep) == Split(s, sep) + [p]
  {
    if s == [] {
      SplitNone(p, sep);
      SplitPrefix([], sep, p);
    } else {
      SplitLast(s[1..], sep, p);
      var t := s + [sep] + p;
      assert t[0] == s[0] && t[1..] == s[1..] + [sep] + p;
    }
  }

  lemma ReadOneMore(dialect: Dialect, quote: char, texts: seq<string>, text: string)
    requires ReadEach(dialect, quote, texts).Some? && ReadAssignment(dialect, quote, Trimmed(text)).Some?
    ensures ReadEach(dialect, quote, texts + [text]) ==
            Some(ReadEach(dialect, quote, texts).value + [ReadAssignment(dialect, quote, Trimmed(text)).value])
  {
    assert (texts + [text])[..|texts|] == texts;
  }

  function Effects(dialect: Dialect, cols: seq<string>, values: seq<Arg>, n: nat): seq<Assignment>
    requires n <= |cols| <= |values|
  {
    seq(n, i requires 0 <= i < n => Assignment(cols[i], Effect(dialect, values[i])))
  }

  lemma ItemStartsPlain(owner: string, quote: char, col: string, a: Arg)
    requires quote != ' ' && (owner == "" || owner[0] != ' ')
    ensures Trimmed(SetItem(owner, [quote], col, a)) == SetItem(owner, [quote], col, a)
    ensures Trimmed(" " + SetItem(owner, [quote], col, a)) == SetItem(owner, [quote], col, a)
  {
    var item := SetItem(owner, [quote], col, a);
    assert item[0] == if owner == "" then quote else owner[0];
    assert (" " + item)[1..] == item;
  }

  lemma FirstItem(dialect: Dialect, quote: char, item: string, a: Assignment)
    requires ',' !in item && Trimmed(item) == item && ReadAssignment(dialect, quote, item) == Some(a)
    ensures ReadAssignments(dialect, quote, item) == Some([a])
  {
    SplitNone(item, ',');
    var none: seq<Assignment>, front: seq<string> := [], [];
    assert ReadEach(dialect, quote, front) == Some(none);
    ReadOneMore(dialect, quote, front, item);
    assert front + [item] == [item] && none + [a] == [a];
  }

  lemma NextItem(dialect: Dialect, quote: char, before: string, item: string, done: seq<Assignment>, a: Assignment)
    requires ReadAssignments(dialect, quote, before) == Some(done)
    requires ',' !in item && Trimmed(" " + item) == item && ReadAssignment(dialect, quote, item) == Some(a)
    ensures ReadAssignments(dialect, quote, before + (", " + item)) == Some(done + [a])
  {
    assert before + (", " + item) == before + [','] + (" " + item);
    SplitLast(before, ',', " " + item);
    ReadOneMore(dialect, quote, Split(before, ','), " " + item);
  }

  lemma EffectsSnoc(dialect: Dialect, cols: seq<string>, values: seq<Arg>, i: nat)
    requires i < |cols| <= |values|
    ensures Effects(dialect, cols, values, i + 1) == Effects(dialect, cols, values, i) + [Assignment(cols[i], Effect(dialect, values[i]))]
  {
  }

  /** The assignments read back from the text: the k-th column, with the change its value asks
      for, and in PostgreSQL a power in place of an exclusive or. */
  lemma {:induction false} AssignmentsRead(dialect: Dialect, owner: string, quote: char, cols: seq<string>, values: seq<Arg>, n: nat)
    requires 0 < n <= |cols| <= |values| && PlainQuote(quote) && PlainName(owner, quote) && (owner == "" || owner[0] != ' ')
    requires forall c <- cols :: PlainName(c, quote)
    ensures ReadAssignments(dialect, quote, TextOf(SetPieces(owner, [quote], cols, values, n))) ==
            Some(Effects(dialect, cols, values, n))
  {
    var i := n - 1;
    var item, a := SetItem(owner, [quote], cols[i], values[i]), Assignment(cols[i], Effect(dialect, values[i]));
    ItemReads(dialect, owner, quote, cols[i], values[i]);
    ItemStartsPlain(owner, quote, cols[i], values[i]);
    SetPiecesSnoc(owner, [quote], cols, values, i);
    EffectsSnoc(dialect, cols, values, i);
    var before := TextOf(SetPieces(owner, [quote], cols, values, i));
    if i == 0 {
      assert before == "" && before + ("" + item) == item;
      FirstItem(dialect, quote, item, a);
      assert Effects(dialect, cols, values, 0) + [a] == [a];
    } else {
      AssignmentsRead(dialect, owner, quote, cols, values, i);
      NextItem(dialect, quote, before, item, Effects(dialect, cols, values, i), a);
    }
  }

  /** The k-th asks for what the caller asked for exactly when it is not an exclusive or sent to
      PostgreSQL. */
  lemma ReadAsAskedIff(dialect: Dialect, owner: string, quote: char, cols: seq<string>, values: seq<Arg>, k: nat)
    requires k < |cols| <= |values| && PlainQuote(quote) && PlainName(owner, quote) && (owner == "" || owner[0] != ' ')
    requires forall c <- cols :: PlainName(c, quote)
    ensures var read := ReadAssignments(dialect, quote, TextOf(SetPieces(owner, [quote], cols, values, |cols|)));
      && read.Some? && |read.value| == |cols|
      && (read.value[k] == Assignment(cols[k], Asked(values[k])) <==>
          !(dialect.Postgres? && values[k].Change? && values[k].op.ColBitXOR?))
  {
    AssignmentsRead(dialect, owner, quote, cols, values, |cols|);
  }

  // ---- running the assignments on a row ----

  type Row = map<string, Value>

  function Cell(row: Row, col: string): Value { if col in row then row[col] else Null }

  type Machine = (Operation, Value, Value) -> Value

  function NewValue(m: Machine, update: Update, now: Value, arg: Value): Value {
    match update case Store => arg case Apply(op) => m(op, now, arg)
  }

  /** Assigns one column after the other. */
  function Run(m: Machine, row: Row, assignments: seq<Assignment>, args: seq<Value>): Row
    requires |assignments| <= |args|
  {
    if assignments == [] then row
    else
      var n := |assignments| - 1;
      var done, last := Run(m, row, assignments[..n], args), assignments[n];
      done[last.col := NewValue(m, last.update, Cell(done, last.col), args[n])]
  }

  lemma {:induction false} RunCells(m: Machine, row: Row, assignments: seq<Assignment>, args: seq<Value>)
    requires |assignments| <= |args|
    requires forall i, j :: 0 <= i < j < |assignments| ==> assignments[i].col != assignments[j].col
    ensures var after := Run(m, row, assignments, args);
      && (forall k :: 0 <= k < |assignments| ==>
            Cell(after, assignments[k].col) == NewValue(m, assignments[k].update, Cell(row, assignments[k].col), args[k]))
      && (forall c :: (forall k :: 0 <= k < |assignments| ==> c != assignments[k].col) ==> Cell(after, c) == Cell(row, c))
  {
    if assignments != [] {
      var n := |assignments| - 1;
      RunCells(m, row, assignments[..n], args);
    }
  }

  /** The value given, or the old value changed by the operation that the operator names. */
  function Stored(m: Machine, now: Value, a: Arg): Value {
    match a
    case Plain(v) => v
    case Change(ColAdd, n) => m(Plus, now, Int(n))
    case Change(ColMinus, n) => m(Minus, now, Int(n))
    case Change(ColMultiply, n) => m(Times, now, Int(n))
    case Change(ColExcept, n) => m(Over, now, Int(n))
    case Change(ColBitAnd, n) => m(BitAnd, now, Int(n))
    case Change(ColBitRShift, n) => m(ShiftRight, now, Int(n))
    case Change(ColBitLShift, n) => m(ShiftLeft, now, Int(n))
    case Change(ColBitXOR, n) => m(BitXor, now, Int(n))
    case Change(ColBitOr, n) => m(BitOr, now, Int(n))
  }

  /** The same, but for the exclusive or that PostgreSQL takes for a power. */
  function Result(dialect: Dialect, m: Machine, now: Value, a: Arg): Value {
    if dialect.Postgres? && a.Change? && a.op.ColBitXOR? then m(Power, now, Int(a.n)) else Stored(m, now, a)
  }

  /** The UPDATE on a row it finds, its text read and run with the arguments in front: every
      given column has the value given for it, or its old value changed by the operator, and the
      other columns are as before. */
  lemma UpdateStores(dialect: Dialect, m: Machine, row: Row, owner: string, quote: char, cols: seq<string>, values: seq<Arg>, rest: seq<Value>)
    requires cols != [] && |cols| <= |values| && PlainQuote(quote) && PlainName(owner, quote) && (owner == "" || owner[0] != ' ')
    requires (forall c <- cols :: PlainName(c, quote)) && forall i, j :: 0 <= i < j < |cols| ==> cols[i] != cols[j]
    ensures var pieces := SetPieces(owner, [quote], cols, values, |cols|);
      var read := ReadAssignments(dialect, quote, TextOf(pieces));
      && read.Some? && |read.value| <= |ArgsOf(pieces) + rest|
      && var after := Run(m, row, read.value, ArgsOf(pieces) + rest);
         && (forall k :: 0 <= k < |cols| ==> Cell(after, cols[k]) == Result(dialect, m, Cell(row, cols[k]), values[k]))
         && (forall c :: c !in cols ==> Cell(after, c) == Cell(row, c))
  {
    AssignmentsRead(dialect, owner, quote, cols, values, |cols|);
    SetArgs(owner, [quote], cols, values, |cols|);
    var args := ArgsOf(SetPieces(owner, [quote], cols, values, |cols|)) + rest;
    assert forall k :: 0 <= k < |cols| ==> args[k] == Unwrap(values[k]);
    EffectsStore(dialect, m, row, cols, values, args);
  }

  lemma EffectStores(dialect: Dialect, m: Machine, now: Value, a: Arg)
    ensures NewValue(m, Effect(dialect, a), now, Unwrap(a)) == Result(dialect, m, now, a)
  {
  }

  lemma EffectsStore(dialect: Dialect, m: Machine, row: Row, cols: seq<string>, values: seq<Arg>, args: seq<Value>)
    requires |cols| <= |values| && |cols| <= |args| && forall i, j :: 0 <= i < j < |cols| ==> cols[i] != cols[j]
    requires forall k :: 0 <= k < |cols| ==> args[k] == Unwrap(values[k])
    ensures var after := Run(m, row, Effects(dialect, cols, values, |cols|), args);
      && (forall k :: 0 <= k < |cols| ==> Cell(after, cols[k]) == Result(dialect, m, Cell(row, cols[k]), values[k]))
      && (forall c :: c !in cols ==> Cell(after, c) == Cell(row, c))
  {
    var assignments := Effects(dialect, cols, values, |cols|);
    RunCells(m, row, assignments, args);
    var after := Run(m, row, assignments, args);
    forall k | 0 <= k < |cols|
      ensures Cell(after, cols[k]) == Result(dialect, m, Cell(row, cols[k]), values[k])
    {
      assert assignments[k] == Assignment(cols[k], Effect(dialect, values[k]));
      EffectStores(dialect, m, Cell(row, cols[k]), values[k]);
    }
    assert forall k :: 0 <= k < |cols| ==> assignments[k].col == cols[k];
  }

  // ---- the k-th placeholder of the statement ----

  /** Without the separator before it. */
  function Item(text: string): string { if |text| >= 2 && text[0] == ',' then text[2..] else text }

  lemma PieceReads(dialect: Dialect, owner: string, quote: char, cols: seq<string>, values: seq<Arg>, k: nat)
    requires k < |cols| <= |values| && PlainQuote(quote) && PlainName(owner, quote) && PlainName(cols[k], quote)
    ensures ReadAssignment(dialect, quote, Item(SetPiece(owner, [quote], cols, values, k).text)) ==
            Some(Assignment(cols[k], Effect(dialect, values[k])))
  {
    var item := SetItem(owner, [quote], cols[k], values[k]);
    ItemReads(dialect, owner, quote, cols[k], values[k]);
    assert (", " + item)[2..] == item && "" + item == item;
    assert item[0] in item;
  }

  /** In an UPDATE whose operators the dialect supports, the k-th placeholder for a column stands in
      the assignment of the k-th column, and is bound to the value given for it. */
  lemma UpdateAssignsKth(f: Frame, quote: char, cols: seq<string>, values: seq<Arg>, dialect: Dialect, toStr: Value -> string,
                         filter: Filter, params: seq<CondValue>, k: nat)
    returns (i: nat, pos: nat)
    requires |cols| <= |values| && f.MarkFree() && (forall c <- cols :: '?' !in c && PlainName(c, quote))
    requires f.quote == [quote] && PlainQuote(quote) && PlainName(f.owner, quote)
    requires ColumnsMarkFree(filter.parts) && SupportedOnly(dialect, filter.parts)
    requires Compile(dialect, toStr, filter.parts) == Some(params) && k < |cols|
    ensures var ps := Statement(f, cols, values, Condition(params));
      && BindsKth(ps, k, i, pos) && ArgsOf(ps)[k] == Unwrap(values[k])
      && ReadAssignment(dialect, quote, Item(ps[i].text)) == Some(Assignment(cols[k], Effect(dialect, values[k])))
  {
    i, pos := UpdateBindsKth(f, cols, values, dialect, toStr, filter, params, k);
    PieceReads(dialect, f.owner, quote, cols, values, k);
  }

  // ---- the table and the key ----

  lemma QuotedName(before: string, quote: char, name: string, rest: string)
    requires quote !in before && quote !in name
    ensures Split(before + ([quote] + name + [quote]) + rest, quote) == [before, name] + Split(rest, quote)
  {
    assert before + ([quote] + name + [quote]) + rest == before + [quote] + (name + [quote] + rest);
    SplitPrefix(before, quote, name + [quote] + rest);
    SplitPrefix(name, quote, rest);
  }

  lemma TargetReads(quote: char, table: string, rest: string)
    requires quote !in "UPDATE " && quote !in table
    ensures ["UPDATE ", table] <= Split("UPDATE " + ([quote] + table + [quote]) + rest, quote)
  {
    QuotedName("UPDATE ", quote, table, rest);
  }

  lemma SubqueryReads(quote: char, table: string, pk: string, rest: string)
    requires quote !in " WHERE " && quote !in " IN ( SELECT T0." && quote !in " FROM " && quote !in table && quote !in pk
    ensures [" WHERE ", pk, " IN ( SELECT T0.", pk, " FROM ", table] <=
            Split(" WHERE " + ([quote] + pk + [quote]) +
                  (" IN ( SELECT T0." + ([quote] + pk + [quote]) + (" FROM " + ([quote] + table + [quote]) + rest)), quote)
  {
    var from := " FROM " + ([quote] + table + [quote]) + rest;
    QuotedName(" FROM ", quote, table, rest);
    QuotedName(" IN ( SELECT T0.", quote, pk, from);
    QuotedName(" WHERE ", quote, pk, " IN ( SELECT T0." + ([quote] + pk + [quote]) + from);
  }

  lemma SubqueryText(quote: char, table: string, pk: string, indexes: string, join: string)
    ensures UpdateFrame(false, [quote], table, pk, indexes, join).middle ==
            " WHERE " + ([quote] + pk + [quote]) +
            (" IN ( SELECT T0." + ([quote] + pk + [quote]) + (" FROM " + ([quote] + table + [quote]) + (" T0 " + indexes + join)))
  {
    assert " IN ( " + "SELECT T0." == " IN ( SELECT T0.";
  }

  /** The statement updates the named table; without joins, the rows of it whose primary key is one
      of those selected from the same table. */
  lemma FrameReads(joins: bool, quote: char, table: string, pk: string, indexes: string, join: string)
    requires quote == '`' || quote == '"'
    requires quote !in table && quote !in pk
    ensures var f := UpdateFrame(joins, [quote], table, pk, indexes, join);
      && ["UPDATE ", table] <= Split(f.prefix, quote)
      && (joins ==> f.owner == "T0." && f.middle == " " && f.tail == "")
      && (!joins ==> f.owner == "" && f.tail == " )")
      && (!joins ==> [" WHERE ", pk, " IN ( SELECT T0.", pk, " FROM ", table] <= Split(f.middle, quote))
  {
    var target := "UPDATE " + ([quote] + table + [quote]);
    if joins {
      assert target + " T0 " + indexes + join == target + (" T0 " + indexes + join);
      TargetReads(quote, table, " T0 " + indexes + join);
    } else {
      TargetReads(quote, table, " ");
      SubqueryText(quote, table, pk, indexes, join);
      SubqueryReads(quote, table, pk, " T0 " + indexes + join);
    }
  }
}
