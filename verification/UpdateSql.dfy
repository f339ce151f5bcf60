/**
  Placeholders and their arguments: `GenerateOperatorSQL`, `buildSetSQL`, `UpdateBatch` and
  `UpdateBatchSQL` of `client/orm/db.go`, and the PostgreSQL `ReplaceMarks` of
  `client/orm/db_postgres.go`.
 */
module UpdateSql {
  import opened Text
  import opened ConditionSql

  /** The number of placeholders in a text. */
  function Marks(s: string): nat {
    if s == [] then 0 else (if s[0] == '?' then 1 else 0) + Marks(s[1..])
  }

  lemma {:induction false} MarksConcat(a: string, b: string)
    ensures Marks(a + b) == Marks(a) + Marks(b)
  {
    if a == [] {
      assert a + b == b;
    } else {
      assert (a + b)[1..] == a[1..] + b;
      MarksConcat(a[1..], b);
    }
  }

  lemma {:induction false} NoMarks(s: string)
    requires '?' !in s
    ensures Marks(s) == 0
  {
    if s != [] {
      NoMarks(s[1..]);
    }
  }

  // ---- operators ----

  /** Every name in the `operators` table of `db.go`. */
  datatype Operator =
    | Exact | IExact | StrictExact | Contains | IContains | Gt | Gte | Lt | Lte | Eq | Nq | Ne
    | StartsWith | EndsWith | IStartsWith | IEndsWith | In | Between | IsNull

  datatype Dialect = MySql | Postgres

  /** The operator's text around its placeholder; None for a name missing from the table. */
  function Around(dialect: Dialect, op: Operator): (r: Option<(string, string)>)
    ensures r.Some? ==> '?' !in r.value.0 && '?' !in r.value.1
  {
    match (dialect, op)
    case (_, Exact) => Some(("= ", ""))
    case (_, Gt) => Some(("> ", ""))
    case (_, Gte) => Some((">= ", ""))
    case (_, Lt) => Some(("< ", ""))
    case (_, Lte) => Some(("<= ", ""))
    case (_, Eq) => Some(("= ", ""))
    case (_, Ne) => Some(("!= ", ""))
    case (MySql, IExact) => Some(("LIKE ", ""))
    case (MySql, StrictExact) => Some(("= BINARY ", ""))
    case (MySql, Contains) => Some(("LIKE BINARY ", ""))
    case (MySql, IContains) => Some(("LIKE ", ""))
    case (MySql, StartsWith) => Some(("LIKE BINARY ", ""))
    case (MySql, EndsWith) => Some(("LIKE BINARY ", ""))
    case (MySql, IStartsWith) => Some(("LIKE ", ""))
    case (MySql, IEndsWith) => Some(("LIKE ", ""))
    case (Postgres, IExact) => Some(("= UPPER(", ")"))
    case (Postgres, Contains) => Some(("LIKE ", ""))
    case (Postgres, IContains) => Some(("LIKE UPPER(", ")"))
    case (Postgres, StartsWith) => Some(("LIKE ", ""))
    case (Postgres, EndsWith) => Some(("LIKE ", ""))
    case (Postgres, IStartsWith) => Some(("LIKE UPPER(", ")"))
    case (Postgres, IEndsWith) => Some(("LIKE UPPER(", ")"))
    case _ => None
  }

  /** `OperatorSQL`: a name missing from the dialect's table gives the empty string. */
  function OperatorSQL(dialect: Dialect, op: Operator): string {
    match Around(dialect, op) case None => "" case Some((before, after)) => before + "?" + after
  }

  predicate InTable(dialect: Dialect, op: Operator) { Around(dialect, op).Some? }

  lemma OneMark(before: string, after: string)
    requires '?' !in before && '?' !in after
    ensures Marks(before + "?" + after) == 1
  {
    NoMarks(before);
    NoMarks(after);
    assert Marks("?") == 1;
    MarksConcat(before, "?");
    MarksConcat(before + "?", after);
  }

  lemma OperatorHasOneMark(dialect: Dialect, op: Operator)
    requires InTable(dialect, op)
    ensures Marks(OperatorSQL(dialect, op)) == 1
  {
    var (before, after) := Around(dialect, op).value;
    OneMark(before, after);
  }

  /** `n` placeholders, comma-separated. */
  function MarkList(n: nat): string {
    if n == 0 then "" else if n == 1 then "?" else "?" + ", " + MarkList(n - 1)
  }

  lemma {:induction false} MarkListCount(n: nat)
    ensures Marks(MarkList(n)) == n
  {
    assert Marks("?") == 1;
    if n > 1 {
      MarkListCount(n - 1);
      MarksConcat("?", ", ");
      MarksConcat("?" + ", ", MarkList(n - 1));
      NoMarks(", ");
    }
  }

  /** `strings.Replace(s, "%", "\\%", -1)`. */
  function EscapePercent(s: string): string {
    if s == [] then [] else (if s[0] == '%' then "\\%" else [s[0]]) + EscapePercent(s[1..])
  }

  /** `GenerateOperatorSQL` on the flattened arguments; None is a panic.  `toStr` is `utils.ToStr`. */
  function GenerateOperatorSQL(dialect: Dialect, op: Operator, params: seq<Value>, toStr: Value -> string)
    : Option<(string, seq<Value>)>
  {
    if params == [] then None
    else if op.In? then Some(("IN (" + MarkList(|params|) + ")", params))
    else if op.Between? then (if |params| != 2 then None else Some(("BETWEEN ? AND ?", params)))
    else if |params| > 1 then None
    else OneArgument(dialect, op, params[0], toStr)
  }

  function OneArgument(dialect: Dialect, op: Operator, arg: Value, toStr: Value -> string): Option<(string, seq<Value>)> {
    var sql := OperatorSQL(dialect, op);
    var param := EscapePercent(toStr(arg));
    match op
    case Exact => Some((sql, [if arg == Null then Str("IS NULL") else arg]))
    case IExact => Some((sql, [Str(param)]))
    case Contains => Some((sql, [Str("%" + param + "%")]))
    case IContains => Some((sql, [Str("%" + param + "%")]))
    case StartsWith => Some((sql, [Str(param + "%")]))
    case IStartsWith => Some((sql, [Str(param + "%")]))
    case EndsWith => Some((sql, [Str("%" + param)]))
    case IEndsWith => Some((sql, [Str("%" + param)]))
    case IsNull => if !arg.Bool? then None else Some((if arg.b then "IS NULL" else "IS NOT NULL", []))
    case _ => Some((sql, [arg]))
  }

  lemma InMarks(n: nat)
    ensures Marks("IN (" + MarkList(n) + ")") == n
  {
    MarkListCount(n);
    NoMarks("IN (");
    NoMarks(")");
    MarksConcat("IN (", MarkList(n));
    MarksConcat("IN (" + MarkList(n), ")");
  }

  lemma BetweenMarks()
    ensures Marks("BETWEEN ? AND ?") == 2
  {
    OneMark("BETWEEN ", " AND ");
    OneMark("", "");
    MarksConcat("BETWEEN " + "?" + " AND ", "" + "?" + "");
    assert "BETWEEN " + "?" + " AND " + ("" + "?" + "") == "BETWEEN ? AND ?";
  }

  lemma OneArgumentMarks(dialect: Dialect, op: Operator, arg: Value, toStr: Value -> string)
    requires OneArgument(dialect, op, arg, toStr).Some? && !op.In? && !op.Between?
    ensures var r := OneArgument(dialect, op, arg, toStr).value;
      && |r.1| == (if op.IsNull? then 0 else 1)
      && Marks(r.0) == (if InTable(dialect, op) then 1 else 0)
  {
    if op.IsNull? {
      NoMarks("IS NULL");
      NoMarks("IS NOT NULL");
    } else if InTable(dialect, op) {
      OperatorHasOneMark(dialect, op);
    }
  }

  /** The operator is handled by name or stands in the dialect's table. */
  predicate Supported(dialect: Dialect, op: Operator) { InTable(dialect, op) || op.In? || op.Between? || op.IsNull? }

  /** An operator text never has more placeholders than arguments, and as many exactly when the
      dialect supports the operator. */
  lemma OperatorBalancedIff(dialect: Dialect, op: Operator, params: seq<Value>, toStr: Value -> string)
    requires GenerateOperatorSQL(dialect, op, params, toStr).Some?
    ensures var r := GenerateOperatorSQL(dialect, op, params, toStr).value;
            Marks(r.0) <= |r.1| && (Marks(r.0) == |r.1| <==> Supported(dialect, op))
  {
    if op.In? {
      InMarks(|params|);
    } else if op.Between? {
      BetweenMarks();
    } else {
      OneArgumentMarks(dialect, op, params[0], toStr);
    }
  }

  /** `GenerateOperatorLeftCol`: what PostgreSQL wraps around the column of some operators. */
  function LeftCol(dialect: Dialect, op: Operator, col: string): string {
    if dialect.Postgres? && (op.Contains? || op.StartsWith? || op.EndsWith?) then col + "::text"
    else if dialect.Postgres? && (op.IExact? || op.IContains? || op.IStartsWith? || op.IEndsWith?) then "UPPER(" + col + "::text)"
    else col
  }

  /** The comparison `getCondSQL` makes of one condition; None is a panic. */
  function Comparison(dialect: Dialect, col: string, op: Operator, params: seq<Value>, toStr: Value -> string): Option<Atom> {
    match GenerateOperatorSQL(dialect, op, params, toStr)
    case None => None
    case Some(r) => Some(Atom(LeftCol(dialect, op, col) + " " + r.0, r.1))
  }

  lemma LeftColMarkFree(dialect: Dialect, op: Operator, col: string)
    requires '?' !in col
    ensures '?' !in LeftCol(dialect, op, col)
  {
  }

  /** The same for the whole comparison, on a column whose name has no question mark. */
  lemma ComparisonBalancedIff(dialect: Dialect, col: string, op: Operator, params: seq<Value>, toStr: Value -> string)
    requires '?' !in col && Comparison(dialect, col, op, params, toStr).Some?
    ensures var a := Comparison(dialect, col, op, params, toStr).value;
            Marks(a.sql) <= |a.args| && (BalancedAtom(a) <==> Supported(dialect, op))
  {
    var left := LeftCol(dialect, op, col);
    var r := GenerateOperatorSQL(dialect, op, params, toStr).value;
    OperatorBalancedIff(dialect, op, params, toStr);
    LeftColMarkFree(dialect, op, col);
    NoMarks(left + " ");
    MarksConcat(left + " ", r.0);
  }

  ghost predicate BalancedAtom(a: Atom) { Marks(a.sql) == |a.args| }

  /** No more placeholders than arguments. */
  ghost predicate SparseAtom(a: Atom) { Marks(a.sql) <= |a.args| }

  /** `nq` is accepted as an operator name but stands in no dialect's table. */
  lemma NqIsUnbalanced(dialect: Dialect, v: Value, toStr: Value -> string)
    ensures var r := GenerateOperatorSQL(dialect, Nq, [v], toStr);
            r.Some? && Marks(r.value.0) == 0 && |r.value.1| == 1
  {
  }

  // ---- a statement as pieces of text, each with the arguments it supplied ----

  datatype Piece = Piece(text: string, args: seq<Value>)
  {
    ghost predicate Balanced() { Marks(text) == |args| }

    ghost predicate Sparse() { Marks(text) <= |args| }
  }

  function TextOf(ps: seq<Piece>): string { if ps == [] then "" else ps[0].text + TextOf(ps[1..]) }

  function ArgsOf(ps: seq<Piece>): seq<Value> { if ps == [] then [] else ps[0].args + ArgsOf(ps[1..]) }

  lemma {:induction false} PiecesConcat(a: seq<Piece>, b: seq<Piece>)
    ensures TextOf(a + b) == TextOf(a) + TextOf(b) && ArgsOf(a + b) == ArgsOf(a) + ArgsOf(b)
  {
    if a == [] {
      assert a + b == b;
    } else {
      var ab := a + b;
      assert ab[0] == a[0] && ab[1..] == a[1..] + b;
      PiecesConcat(a[1..], b);
    }
  }

  lemma OnePiece(p: Piece)
    ensures TextOf([p]) == p.text && ArgsOf([p]) == p.args
  {
    assert [p][1..] == [];
  }

  lemma {:induction false} BalancedTotal(ps: seq<Piece>)
    requires forall p <- ps :: p.Balanced()
    ensures Marks(TextOf(ps)) == |ArgsOf(ps)|
  {
    if ps != [] {
      assert ps[0].Balanced();
      MarksConcat(ps[0].text, TextOf(ps[1..]));
      BalancedTotal(ps[1..]);
    }
  }

  /** In a statement of balanced pieces, the placeholders of piece `i` are exactly the ones
      whose ordinals are the positions of its own arguments. */
  lemma PlaceholdersBindOwnArguments(ps: seq<Piece>, i: nat)
    requires i < |ps| && forall p <- ps :: p.Balanced()
    ensures TextOf(ps) == TextOf(ps[..i]) + ps[i].text + TextOf(ps[i + 1..])
    ensures var first := Marks(TextOf(ps[..i]));
      && first + Marks(ps[i].text) <= |ArgsOf(ps)|
      && ArgsOf(ps)[first..first + Marks(ps[i].text)] == ps[i].args
    ensures Marks(TextOf(ps)) == |ArgsOf(ps)|
  {
    var a, b := ps[..i], ps[i + 1..];
    assert ps == a + ([ps[i]] + b);
    PiecesConcat(a, [ps[i]] + b);
    assert ([ps[i]] + b)[1..] == b;
    BalancedTotal(a);
    BalancedTotal(ps);
    assert ps[i].Balanced();
  }

  // ---- the WHERE clause ----

  function TokenPiece(t: Token): Piece {
    match t
    case And => Piece("AND ", [])
    case Or => Piece("OR ", [])
    case Not => Piece("NOT ", [])
    case Open => Piece("( ", [])
    case Close => Piece(") ", [])
    case Test(a) => Piece(a.sql + " ", a.args)
  }

  function TokenPieces(ts: seq<Token>): seq<Piece> {
    if ts == [] then [] else [TokenPiece(ts[0])] + TokenPieces(ts[1..])
  }

  lemma {:induction false} TokenPiecesConcat(a: seq<Token>, b: seq<Token>)
    ensures TokenPieces(a + b) == TokenPieces(a) + TokenPieces(b)
  {
    if a == [] {
      assert a + b == b;
    } else {
      assert (a + b)[1..] == a[1..] + b;
      TokenPiecesConcat(a[1..], b);
    }
  }

  /** The arguments a token list carries. */
  function TokenArgs(ts: seq<Token>): seq<Value> { ArgsOf(TokenPieces(ts)) }

  lemma TokenArgsConcat(a: seq<Token>, b: seq<Token>)
    ensures TokenArgs(a + b) == TokenArgs(a) + TokenArgs(b)
  {
    TokenPiecesConcat(a, b);
    PiecesConcat(TokenPieces(a), TokenPieces(b));
  }

  lemma OneTokenArgs(t: Token)
    ensures TokenArgs([t]) == TokenPiece(t).args
  {
    assert [t][1..] == [];
    assert TokenPieces([t]) == [TokenPiece(t)];
    OnePiece(TokenPiece(t));
  }

  /** The arguments `getCondSQL` collects are those of the tokens it emits, in order. */
  lemma {:induction false} ClauseArgs(params: seq<CondValue>)
    ensures TokenArgs(Emit(params)) == Args(params)
    decreases params, 2
  {
    if params != [] {
      PartArgsOf(params[0]);
      RestArgs(params[1..]);
      TokenArgsConcat(EmitPart(params[0]), EmitRest(params[1..]));
    }
  }

  lemma {:induction false} RestArgs(params: seq<CondValue>)
    ensures TokenArgs(EmitRest(params)) == Args(params)
    decreases params, 1
  {
    if params != [] {
      var connective := if params[0].isOr then Or else And;
      PartArgsOf(params[0]);
      RestArgs(params[1..]);
      OneTokenArgs(connective);
      TokenArgsConcat([connective], EmitPart(params[0]));
      TokenArgsConcat([connective] + EmitPart(params[0]), EmitRest(params[1..]));
    }
  }

  lemma {:induction false} PartArgsOf(p: CondValue)
    ensures TokenArgs(EmitPart(p)) == PartArgs(p)
    decreases p, 0
  {
    var bare := EmitPart(p.(isNot := false));
    OneTokenArgs(Not);
    TokenArgsConcat([Not], bare);
    assert EmitPart(p) == if p.isNot then [Not] + bare else bare;
    match p.body {
      case Leaf(atom) =>
        OneTokenArgs(Test(atom));
        assert bare == [Test(atom)];
      case Nested(cond) =>
        var w := Emit(cond.params);
        ClauseArgs(cond.params);
        OneTokenArgs(Open);
        OneTokenArgs(Close);
        TokenArgsConcat([Open], w);
        TokenArgsConcat([Open] + w, [Close]);
        assert bare == if w == [] then [] else [Open] + w + [Close];
    }
  }

  // ---- the SET clause ----

  datatype ColOp = ColAdd | ColMinus | ColMultiply | ColExcept | ColBitAnd | ColBitRShift | ColBitLShift | ColBitXOR | ColBitOr

  /** A value to store: given as such, or as a change to the column. */
  datatype Arg = Plain(v: Value) | Change(op: ColOp, n: int)

  function Unwrap(a: Arg): Value { match a case Plain(v) => v case Change(_, n) => Int(n) }

  function OpSign(op: ColOp): (sign: string)
    ensures '?' !in sign
  {
    match op
    case ColAdd => " + "
    case ColMinus => " - "
    case ColMultiply => " * "
    case ColExcept => " / "
    case ColBitAnd => " & "
    case ColBitRShift => " >> "
    case ColBitLShift => " << "
    case ColBitXOR => " ^ "
    case ColBitOr => " | "
  }

  function SetItem(owner: string, quote: string, col: string, a: Arg): string {
    var name := owner + quote + col + quote;
    name + " = " + match a case Plain(_) => "?" case Change(op, _) => name + (OpSign(op) + "?")
  }

  function SetPiece(owner: string, quote: string, cols: seq<string>, values: seq<Arg>, i: nat): Piece
    requires i < |cols| <= |values|
  {
    Piece((if i > 0 then ", " else "") + SetItem(owner, quote, cols[i], values[i]), [Unwrap(values[i])])
  }

  function SetPieces(owner: string, quote: string, cols: seq<string>, values: seq<Arg>, n: nat): seq<Piece>
    requires n <= |cols| <= |values|
  {
    seq(n, i requires 0 <= i < n => SetPiece(owner, quote, cols, values, i))
  }

  lemma SetPiecesSnoc(owner: string, quote: string, cols: seq<string>, values: seq<Arg>, i: nat)
    requires i < |cols| <= |values|
    ensures TextOf(SetPieces(owner, quote, cols, values, i + 1)) ==
            TextOf(SetPieces(owner, quote, cols, values, i)) + SetPiece(owner, quote, cols, values, i).text
    ensures ArgsOf(SetPieces(owner, quote, cols, values, i + 1)) ==
            ArgsOf(SetPieces(owner, quote, cols, values, i)) + [Unwrap(values[i])]
  {
    var done, next := SetPieces(owner, quote, cols, values, i), SetPiece(owner, quote, cols, values, i);
    assert SetPieces(owner, quote, cols, values, i + 1) == done + [next];
    PiecesConcat(done, [next]);
    OnePiece(next);
  }

  method BuildSetSQL(owner: string, quote: string, cols: seq<string>, values: array<Arg>) returns (buf: string)
    requires |cols| <= values.Length
    modifies values
    ensures buf == "SET " + TextOf(SetPieces(owner, quote, cols, old(values[..]), |cols|))
    ensures forall i :: 0 <= i < |cols| ==> values[i] == Plain(Unwrap(old(values[i])))
    ensures forall i :: |cols| <= i < values.Length ==> values[i] == old(values[i])
  {
    buf := "SET ";
    ghost var was := values[..];
    for i := 0 to |cols|
      invariant buf == "SET " + TextOf(SetPieces(owner, quote, cols, was, i))
      invariant forall j :: 0 <= j < i ==> values[j] == Plain(Unwrap(was[j]))
      invariant forall j :: i <= j < values.Length ==> values[j] == was[j]
    {
      SetPiecesSnoc(owner, quote, cols, was, i);
      var piece := SetPiece(owner, quote, cols, values[..], i);
      assert piece == SetPiece(owner, quote, cols, was, i);
      Associates("SET ", TextOf(SetPieces(owner, quote, cols, was, i)), piece.text);
      buf := buf + piece.text;
      if values[i].Change? {
        values[i] := Plain(Int(values[i].n));
      }
    }
  }

  lemma UnwrappedSnoc(values: seq<Arg>, n: nat)
    requires 0 < n <= |values|
    ensures seq(n, i requires 0 <= i < n => Unwrap(values[i])) ==
            seq(n - 1, i requires 0 <= i < n - 1 => Unwrap(values[i])) + [Unwrap(values[n - 1])]
  {
  }

  lemma {:induction false} SetArgs(owner: string, quote: string, cols: seq<string>, values: seq<Arg>, n: nat)
    requires n <= |cols| <= |values|
    ensures ArgsOf(SetPieces(owner, quote, cols, values, n)) == seq(n, i requires 0 <= i < n => Unwrap(values[i]))
  {
    if n > 0 {
      SetArgs(owner, quote, cols, values, n - 1);
      SetPiecesSnoc(owner, quote, cols, values, n - 1);
      UnwrappedSnoc(values, n);
    }
  }

  lemma SetItemHasOneMark(owner: string, quote: string, col: string, a: Arg)
    requires '?' !in owner && '?' !in quote && '?' !in col
    ensures Marks(SetItem(owner, quote, col, a)) == 1
  {
    var name := owner + quote + col + quote;
    NoMarks(name + " = ");
    assert Marks("?") == 1;
    match a {
      case Plain(_) =>
        MarksConcat(name + " = ", "?");
      case Change(op, _) =>
        var sum := OpSign(op) + "?";
        NoMarks(name);
        LastMark(OpSign(op));
        MarksConcat(name, sum);
        MarksConcat(name + " = ", name + sum);
    }
  }

  lemma LastMark(before: string)
    requires '?' !in before
    ensures Marks(before + "?") == 1
  {
    NoMarks(before);
    assert Marks("?") == 1;
    MarksConcat(before, "?");
  }

  lemma SetPiecesBalanced(owner: string, quote: string, cols: seq<string>, values: seq<Arg>, n: nat)
    requires n <= |cols| <= |values| && '?' !in owner && '?' !in quote && forall c <- cols :: '?' !in c
    ensures forall p <- SetPieces(owner, quote, cols, values, n) :: p.Balanced()
  {
    forall i | 0 <= i < n
      ensures SetPiece(owner, quote, cols, values, i).Balanced()
    {
      var sep := if i > 0 then ", " else "";
      SetItemHasOneMark(owner, quote, cols[i], values[i]);
      NoMarks(sep);
      MarksConcat(sep, SetItem(owner, quote, cols[i], values[i]));
    }
  }

  // ---- the whole UPDATE statement ----

  /** Everything of the statement that is not a column, a value or a condition: what stands
      before SET, the owner of the columns and their quote, what stands between the
      assignments and the clause, and what ends the statement. */
  datatype Frame = Frame(prefix: string, owner: string, quote: string, middle: string, tail: string)
  {
    ghost predicate MarkFree() {
      '?' !in prefix && '?' !in owner && '?' !in quote && '?' !in middle && '?' !in tail
    }
  }

  /** The frame of `UpdateBatchSQL`, for a dialect that can join in an UPDATE and for one that
      selects the keys in a subquery. */
  function UpdateFrame(joins: bool, quote: string, table: string, pk: string, indexes: string, join: string): Frame {
    var name := quote + table + quote;
    if joins then
      Frame("UPDATE " + name + " T0 " + indexes + join, "T0.", quote, " ", "")
    else
      Frame("UPDATE " + name + " ", "", quote,
            " WHERE " + quote + pk + quote + " IN ( " + "SELECT T0." + quote + pk + quote + " FROM " + name +
            " T0 " + indexes + join,
            " )")
  }

  lemma UpdateFrameMarkFree(joins: bool, quote: string, table: string, pk: string, indexes: string, join: string)
    requires '?' !in quote && '?' !in table && '?' !in pk && '?' !in indexes && '?' !in join
    ensures UpdateFrame(joins, quote, table, pk, indexes, join).MarkFree()
  {
  }

  /** The clause with the "WHERE " that `getCondSQL` puts before a non-empty one. */
  function WherePieces(cond: Condition): seq<Piece> {
    var ts := Emit(cond.params);
    if ts == [] then [] else [Piece("WHERE ", [])] + TokenPieces(ts)
  }

  function Statement(f: Frame, cols: seq<string>, values: seq<Arg>, cond: Condition): seq<Piece>
    requires |cols| <= |values|
  {
    [Piece(f.prefix + "SET ", [])] + SetPieces(f.owner, f.quote, cols, values, |cols|) +
    [Piece(f.middle, [])] + WherePieces(cond) + [Piece(f.tail, [])]
  }

  lemma WhereArgs(cond: Condition)
    ensures ArgsOf(WherePieces(cond)) == Args(cond.params)
  {
    ClauseArgs(cond.params);
    PiecesConcat([Piece("WHERE ", [])], TokenPieces(Emit(cond.params)));
    OnePiece(Piece("WHERE ", []));
  }

  lemma WhereText(cond: Condition)
    ensures var ts := Emit(cond.params);
            TextOf(WherePieces(cond)) == if ts == [] then "" else "WHERE " + TextOf(TokenPieces(ts))
  {
    PiecesConcat([Piece("WHERE ", [])], TokenPieces(Emit(cond.params)));
    OnePiece(Piece("WHERE ", []));
  }

  lemma StatementParts(f: Frame, cols: seq<string>, values: seq<Arg>, cond: Condition)
    requires |cols| <= |values|
    ensures TextOf(Statement(f, cols, values, cond)) ==
            f.prefix + "SET " + TextOf(SetPieces(f.owner, f.quote, cols, values, |cols|)) + f.middle +
            TextOf(WherePieces(cond)) + f.tail
    ensures ArgsOf(Statement(f, cols, values, cond)) ==
            ArgsOf(SetPieces(f.owner, f.quote, cols, values, |cols|)) + Args(cond.params)
  {
    var where := WherePieces(cond);
    FiveParts(Piece(f.prefix + "SET ", []), SetPieces(f.owner, f.quote, cols, values, |cols|), Piece(f.middle, []), where, Piece(f.tail, []));
    WhereArgs(cond);
    WithoutEmpty(ArgsOf(SetPieces(f.owner, f.quote, cols, values, |cols|)), ArgsOf(where));
  }

  lemma WithoutEmpty(a: seq<Value>, b: seq<Value>)
    ensures [] + a + [] + b + [] == a + b
  {
  }

  lemma FiveParts(h: Piece, b: seq<Piece>, m: Piece, d: seq<Piece>, t: Piece)
    ensures TextOf([h] + b + [m] + d + [t]) == h.text + TextOf(b) + m.text + TextOf(d) + t.text
    ensures ArgsOf([h] + b + [m] + d + [t]) == h.args + ArgsOf(b) + m.args + ArgsOf(d) + t.args
  {
    PiecesConcat([h], b);
    PiecesConcat([h] + b, [m]);
    PiecesConcat([h] + b + [m], d);
    PiecesConcat([h] + b + [m] + d, [t]);
    OnePiece(h);
    OnePiece(m);
    OnePiece(t);
  }

  /** The arguments as the driver gets them: values, no column changes. */
  function AllPlain(vs: seq<Value>): seq<Arg> { seq(|vs|, i requires 0 <= i < |vs| => Plain(vs[i])) }

  /** `append(values, args...)` followed by `buildSetSQL` on the joint slice. */
  method BindAndSet(f: Frame, cols: seq<string>, vals: seq<Arg>, whereArgs: seq<Value>)
    returns (assignments: string, args: seq<Arg>)
    requires |cols| == |vals|
    ensures assignments == "SET " + TextOf(SetPieces(f.owner, f.quote, cols, vals, |cols|))
    ensures args == AllPlain(ArgsOf(SetPieces(f.owner, f.quote, cols, vals, |cols|)) + whereArgs)
  {
    var values := new Arg[|vals| + |whereArgs|](i requires 0 <= i < |vals| + |whereArgs| =>
      if i < |vals| then vals[i] else Plain(whereArgs[i - |vals|]));
    ghost var was := values[..];
    assert was[..|cols|] == vals;
    assignments := BuildSetSQL(f.owner, f.quote, cols, values);
    args := values[..];
    SameSetPieces(f, cols, was, vals);
    SetArgs(f.owner, f.quote, cols, vals, |cols|);
  }

  /** `UpdateBatch` up to `ReplaceMarks`: the text is the concatenation of the pieces, and the
      arguments passed to the driver are theirs, with no column change left unwrapped. */
  method UpdateBatch(f: Frame, cols: seq<string>, vals: seq<Arg>, cond: Condition) returns (query: string, args: seq<Arg>)
    requires |cols| == |vals|
    ensures query == TextOf(Statement(f, cols, vals, cond))
    ensures args == AllPlain(ArgsOf(Statement(f, cols, vals, cond)))
  {
    var tokens, whereArgs := GetCondSQL(cond);
    var where := if tokens == [] then "" else "WHERE " + TextOf(TokenPieces(tokens));
    WhereText(cond);
    var assignments;
    assignments, args := BindAndSet(f, cols, vals, whereArgs);
    query := f.prefix + assignments + f.middle + where + f.tail;
    Associates(f.prefix, "SET ", TextOf(SetPieces(f.owner, f.quote, cols, vals, |cols|)));
    StatementParts(f, cols, vals, cond);
  }

  lemma SameSetPieces(f: Frame, cols: seq<string>, a: seq<Arg>, b: seq<Arg>)
    requires |cols| <= |a| && |cols| <= |b| && a[..|cols|] == b[..|cols|]
    ensures SetPieces(f.owner, f.quote, cols, a, |cols|) == SetPieces(f.owner, f.quote, cols, b, |cols|)
  {
    assert forall i :: 0 <= i < |cols| ==> a[i] == a[..|cols|][i] && b[i] == b[..|cols|][i];
  }

  /** Every comparison of the condition, at any depth. */
  ghost predicate EveryAtom(params: seq<CondValue>, good: Atom -> bool)
    decreases params, 1
  {
    forall i :: 0 <= i < |params| ==> EveryAtomOf(params[i], good)
  }

  ghost predicate EveryAtomOf(p: CondValue, good: Atom -> bool)
    decreases p, 0
  {
    match p.body case Leaf(a) => good(a) case Nested(c) => EveryAtom(c.params, good)
  }

  ghost predicate EveryTest(ts: seq<Token>, good: Atom -> bool) { forall t <- ts :: t.Test? ==> good(t.atom) }

  lemma TestsConcat(a: seq<Token>, b: seq<Token>, good: Atom -> bool)
    ensures EveryTest(a + b, good) <==> EveryTest(a, good) && EveryTest(b, good)
  {
    assert (forall t <- a :: t in a + b) && (forall t <- b :: t in a + b);
  }

  lemma FirstAtoms(params: seq<CondValue>, good: Atom -> bool)
    requires params != []
    ensures EveryAtom(params, good) <==> EveryAtomOf(params[0], good) && EveryAtom(params[1..], good)
  {
    assert forall i :: 1 <= i < |params| ==> params[i] == params[1..][i - 1];
  }

  /** A clause holds all comparisons of its condition and no others. */
  lemma {:induction false} ClauseTests(params: seq<CondValue>, good: Atom -> bool)
    ensures EveryTest(Emit(params), good) <==> EveryAtom(params, good)
    decreases params, 2
  {
    if params != [] {
      FirstAtoms(params, good);
      PartTests(params[0], good);
      RestTests(params[1..], good);
      TestsConcat(EmitPart(params[0]), EmitRest(params[1..]), good);
    }
  }

  lemma {:induction false} RestTests(params: seq<CondValue>, good: Atom -> bool)
    ensures EveryTest(EmitRest(params), good) <==> EveryAtom(params, good)
    decreases params, 1
  {
    if params != [] {
      var link := [if params[0].isOr then Or else And];
      FirstAtoms(params, good);
      PartTests(params[0], good);
      RestTests(params[1..], good);
      TestsConcat(link, EmitPart(params[0]), good);
      TestsConcat(link + EmitPart(params[0]), EmitRest(params[1..]), good);
    }
  }

  lemma {:induction false} PartTests(p: CondValue, good: Atom -> bool)
    ensures EveryTest(EmitPart(p), good) <==> EveryAtomOf(p, good)
    decreases p, 0
  {
    var sign := if p.isNot then [Not] else [];
    match p.body {
      case Leaf(a) =>
        TestsConcat(sign, [Test(a)], good);
        assert EveryTest([Test(a)], good) <==> good(a) by {
          assert Test(a) in [Test(a)];
        }
      case Nested(c) =>
        var w := Emit(c.params);
        ClauseTests(c.params, good);
        TestsConcat([Open], w, good);
        TestsConcat([Open] + w, [Close], good);
        TestsConcat(sign, [Open] + w + [Close], good);
        TestsConcat(sign, [], good);
    }
  }

  lemma TokenPieceMarks(t: Token)
    ensures Marks(TokenPiece(t).text) == if t.Test? then Marks(t.atom.sql) else 0
  {
    match t {
      case Test(a) =>
        MarksConcat(a.sql, " ");
        NoMarks(" ");
      case _ =>
        NoMarks(TokenPiece(t).text);
    }
  }

  ghost predicate EveryPiece(ps: seq<Piece>, good: Piece -> bool) { forall p <- ps :: good(p) }

  lemma FirstPiece(ps: seq<Piece>, good: Piece -> bool)
    requires ps != []
    ensures EveryPiece(ps, good) <==> good(ps[0]) && EveryPiece(ps[1..], good)
  {
    assert ps[0] in ps;
    assert forall p :: p in ps <==> p == ps[0] || p in ps[1..];
  }

  /** The pieces of a token list are as good as its comparisons. */
  lemma {:induction false} TokenPiecesGood(ts: seq<Token>, good: Atom -> bool, goodPiece: Piece -> bool)
    requires forall t :: goodPiece(TokenPiece(t)) <==> (t.Test? ==> good(t.atom))
    ensures EveryPiece(TokenPieces(ts), goodPiece) <==> EveryTest(ts, good)
  {
    if ts != [] {
      var first, rest := TokenPiece(ts[0]), TokenPieces(ts[1..]);
      TokenPiecesGood(ts[1..], good, goodPiece);
      FirstTest(ts, good);
      FirstPiece([first] + rest, goodPiece);
      assert ([first] + rest)[1..] == rest;
    }
  }

  lemma TokenPiecesMarks(ts: seq<Token>)
    ensures EveryPiece(TokenPieces(ts), BalancedPiece) <==> EveryTest(ts, BalancedAtom)
    ensures EveryPiece(TokenPieces(ts), SparsePiece) <==> EveryTest(ts, SparseAtom)
  {
    forall t
      ensures BalancedPiece(TokenPiece(t)) <==> (t.Test? ==> BalancedAtom(t.atom))
      ensures SparsePiece(TokenPiece(t)) <==> (t.Test? ==> SparseAtom(t.atom))
    {
      TokenPieceMarks(t);
    }
    TokenPiecesGood(ts, BalancedAtom, BalancedPiece);
    TokenPiecesGood(ts, SparseAtom, SparsePiece);
  }

  ghost predicate BalancedPiece(p: Piece) { p.Balanced() }

  ghost predicate SparsePiece(p: Piece) { p.Sparse() }

  lemma FirstTest(ts: seq<Token>, good: Atom -> bool)
    requires ts != []
    ensures EveryTest(ts, good) <==> (ts[0].Test? ==> good(ts[0].atom)) && EveryTest(ts[1..], good)
  {
    assert ts[0] in ts;
    assert forall t :: t in ts <==> t == ts[0] || t in ts[1..];
  }

  /** When no piece has more placeholders than arguments, the totals agree exactly when every
      piece has as many. */
  lemma {:induction false} TotalsAgreeIff(ps: seq<Piece>)
    requires EveryPiece(ps, SparsePiece)
    ensures Marks(TextOf(ps)) <= |ArgsOf(ps)|
    ensures Marks(TextOf(ps)) == |ArgsOf(ps)| <==> EveryPiece(ps, BalancedPiece)
  {
    if ps != [] {
      FirstPiece(ps, SparsePiece);
      FirstPiece(ps, BalancedPiece);
      MarksConcat(ps[0].text, TextOf(ps[1..]));
      TotalsAgreeIff(ps[1..]);
    }
  }

  /** All pieces of the statement but those of the condition are balanced. */
  lemma FrameBalanced(f: Frame, cols: seq<string>, values: seq<Arg>, cond: Condition)
    requires |cols| <= |values| && f.MarkFree() && (forall c <- cols :: '?' !in c)
    ensures forall p <- Statement(f, cols, values, cond) :: p.Balanced() || p in TokenPieces(Emit(cond.params))
    ensures forall p <- TokenPieces(Emit(cond.params)) :: p in Statement(f, cols, values, cond)
  {
    NoMarks(f.prefix + "SET ");
    NoMarks(f.middle);
    NoMarks(f.tail);
    NoMarks("WHERE ");
    SetPiecesBalanced(f.owner, f.quote, cols, values, |cols|);
  }

  /** With names free of question marks and balanced comparisons, every piece of the statement
      is balanced: so, by `PlaceholdersBindOwnArguments`, each placeholder is bound to the
      argument of its own clause, assignments first and the condition after them. */
  lemma StatementBalanced(f: Frame, cols: seq<string>, values: seq<Arg>, cond: Condition)
    requires |cols| <= |values| && f.MarkFree() && (forall c <- cols :: '?' !in c) && EveryAtom(cond.params, BalancedAtom)
    ensures forall p <- Statement(f, cols, values, cond) :: p.Balanced()
    ensures Marks(TextOf(Statement(f, cols, values, cond))) == |cols| + |Args(cond.params)|
  {
    FrameBalanced(f, cols, values, cond);
    ClauseTests(cond.params, BalancedAtom);
    TokenPiecesMarks(Emit(cond.params));
    BalancedTotal(Statement(f, cols, values, cond));
    StatementParts(f, cols, values, cond);
    SetArgs(f.owner, f.quote, cols, values, |cols|);
  }

  /** When no comparison has more placeholders than arguments, the totals of the statement agree
      exactly when every comparison is balanced. */
  lemma CountsAgreeIff(f: Frame, cols: seq<string>, values: seq<Arg>, cond: Condition)
    requires |cols| <= |values| && f.MarkFree() && (forall c <- cols :: '?' !in c) && EveryAtom(cond.params, SparseAtom)
    ensures var ps := Statement(f, cols, values, cond);
            Marks(TextOf(ps)) == |ArgsOf(ps)| <==> EveryAtom(cond.params, BalancedAtom)
  {
    FrameBalanced(f, cols, values, cond);
    ClauseTests(cond.params, BalancedAtom);
    ClauseTests(cond.params, SparseAtom);
    TokenPiecesMarks(Emit(cond.params));
    TotalsAgreeIff(Statement(f, cols, values, cond));
  }

  // ---- conditions as a caller builds them ----

  /** A condition before its comparisons are turned to SQL: columns, operators and arguments. */
  datatype Filter = Filter(parts: seq<FilterPart>)

  datatype FilterPart = FilterPart(isOr: bool, isNot: bool, body: FilterBody)

  datatype FilterBody = Compare(col: string, op: Operator, params: seq<Value>) | Group(filter: Filter)

  /** What `getCondSQL` makes of its comparisons; None is a panic. */
  function Compile(dialect: Dialect, toStr: Value -> string, parts: seq<FilterPart>): Option<seq<CondValue>>
    decreases parts, 1
  {
    if parts == [] then Some([])
    else
      var first, rest := CompilePart(dialect, toStr, parts[0]), Compile(dialect, toStr, parts[1..]);
      if first.None? || rest.None? then None else Some([first.value] + rest.value)
  }

  function CompilePart(dialect: Dialect, toStr: Value -> string, p: FilterPart): Option<CondValue>
    decreases p, 0
  {
    match p.body
    case Compare(col, op, params) =>
      (match Comparison(dialect, col, op, params, toStr) case None => None case Some(a) => Some(CondValue(p.isOr, p.isNot, Leaf(a))))
    case Group(filter) =>
      (match Compile(dialect, toStr, filter.parts)
       case None => None
       case Some(params) => Some(CondValue(p.isOr, p.isNot, Nested(Condition(params)))))
  }

  /** Every operator, at any depth, is one the dialect supports. */
  ghost predicate SupportedOnly(dialect: Dialect, parts: seq<FilterPart>)
    decreases parts, 1
  {
    parts == [] || (SupportedPart(dialect, parts[0]) && SupportedOnly(dialect, parts[1..]))
  }

  ghost predicate SupportedPart(dialect: Dialect, p: FilterPart)
    decreases p, 0
  {
    match p.body case Compare(_, op, _) => Supported(dialect, op) case Group(filter) => SupportedOnly(dialect, filter.parts)
  }

  /** No column, at any depth, has a question mark in its name. */
  ghost predicate ColumnsMarkFree(parts: seq<FilterPart>)
    decreases parts, 1
  {
    parts == [] || (PartMarkFree(parts[0]) && ColumnsMarkFree(parts[1..]))
  }

  ghost predicate PartMarkFree(p: FilterPart)
    decreases p, 0
  {
    match p.body case Compare(col, _, _) => '?' !in col case Group(filter) => ColumnsMarkFree(filter.parts)
  }

  lemma {:induction false} CompiledAtoms(dialect: Dialect, toStr: Value -> string, parts: seq<FilterPart>)
    requires ColumnsMarkFree(parts) && Compile(dialect, toStr, parts).Some?
    ensures var params := Compile(dialect, toStr, parts).value;
      EveryAtom(params, SparseAtom) && (EveryAtom(params, BalancedAtom) <==> SupportedOnly(dialect, parts))
    decreases parts, 1
  {
    if parts != [] {
      CompiledPart(dialect, toStr, parts[0]);
      CompiledAtoms(dialect, toStr, parts[1..]);
      var params := Compile(dialect, toStr, parts).value;
      assert params[1..] == Compile(dialect, toStr, parts[1..]).value;
      FirstAtoms(params, SparseAtom);
      FirstAtoms(params, BalancedAtom);
    }
  }

  lemma {:induction false} CompiledPart(dialect: Dialect, toStr: Value -> string, p: FilterPart)
    requires PartMarkFree(p) && CompilePart(dialect, toStr, p).Some?
    ensures var c := CompilePart(dialect, toStr, p).value;
      EveryAtomOf(c, SparseAtom) && (EveryAtomOf(c, BalancedAtom) <==> SupportedPart(dialect, p))
    decreases p, 0
  {
    match p.body
    case Compare(col, op, params) => ComparisonBalancedIff(dialect, col, op, params, toStr);
    case Group(filter) => CompiledAtoms(dialect, toStr, filter.parts);
  }

  /** The UPDATE for a condition of columns, operators and arguments passes as many arguments as
      it has placeholders exactly when the dialect supports every operator of the condition. */
  lemma PlaceholdersAgreeIff(f: Frame, cols: seq<string>, values: seq<Arg>, dialect: Dialect, toStr: Value -> string, filter: Filter)
    requires |cols| <= |values| && f.MarkFree() && (forall c <- cols :: '?' !in c)
    requires ColumnsMarkFree(filter.parts) && Compile(dialect, toStr, filter.parts).Some?
    ensures var ps := Statement(f, cols, values, Condition(Compile(dialect, toStr, filter.parts).value));
            Marks(TextOf(ps)) == |ArgsOf(ps)| <==> SupportedOnly(dialect, filter.parts)
  {
    CompiledAtoms(dialect, toStr, filter.parts);
    CountsAgreeIff(f, cols, values, Condition(Compile(dialect, toStr, filter.parts).value));
  }

  // ---- numbered placeholders ----

  /** The pieces between placeholders, with "$n", "$n+1", ... put between them. */
  function Numbered(pieces: seq<string>, n: nat): string
    requires pieces != []
  {
    if |pieces| == 1 then pieces[0] else pieces[0] + "$" + Itoa(n) + Numbered(pieces[1..], n + 1)
  }

  lemma {:induction false} NumberedPrefix(q: string, c: char, n: nat)
    ensures Numbered(Split([c] + q, '?'), n) ==
            if c == '?' then "$" + Itoa(n) + Numbered(Split(q, '?'), n + 1) else [c] + Numbered(Split(q, '?'), n)
  {
    assert ([c] + q)[1..] == q;
    var rest := Split(q, '?');
    if c == '?' {
      assert ([[]] + rest)[1..] == rest;
    } else {
      var pieces := [[c] + rest[0]] + rest[1..];
      assert pieces[1..] == rest[1..];
      if |rest| > 1 {
        assert Numbered(pieces, n) == [c] + rest[0] + "$" + Itoa(n) + Numbered(rest[1..], n + 1);
      }
    }
  }

  lemma NumberedStep(data: string, q: string, i: nat, n: nat)
    requires i < |q|
    ensures data + Numbered(Split(q[i..], '?'), n) ==
            if q[i] == '?' then data + "$" + Itoa(n) + Numbered(Split(q[i + 1..], '?'), n + 1)
            else data + [q[i]] + Numbered(Split(q[i + 1..], '?'), n)
  {
    NumberedPrefix(q[i + 1..], q[i], n);
    assert q[i..] == [q[i]] + q[i + 1..];
    if q[i] == '?' {
      var rest := Numbered(Split(q[i + 1..], '?'), n + 1);
      Associates(data, "$" + Itoa(n), rest);
      Associates(data, "$", Itoa(n));
    } else {
      Associates(data, [q[i]], Numbered(Split(q[i + 1..], '?'), n));
    }
  }

  lemma NoSplit(q: string)
    requires '?' !in q
    ensures Numbered(Split(q, '?'), 1) == q
  {
    SplitNone(q, '?');
  }

  /** `ReplaceMarks`: the k-th question mark becomes "$k", everything between stays. */
  method ReplaceMarks(query: string) returns (r: string)
    ensures r == Numbered(Split(query, '?'), 1)
  {
    var num := 0;
    for i := 0 to |query|
      invariant num >= 0 && (num == 0 <==> '?' !in query[..i])
    {
      assert query[..i + 1] == query[..i] + [query[i]];
      if query[i] == '?' {
        num := num + 1;
      }
    }
    if num == 0 {
      assert query[..|query|] == query;
      NoSplit(query);
      return query;
    }
    var data := "";
    num := 1;
    for i := 0 to |query|
      invariant num >= 1
      invariant data + Numbered(Split(query[i..], '?'), num) == Numbered(Split(query, '?'), 1)
    {
      var c := query[i];
      NumberedStep(data, query, i, num);
      if c == '?' {
        data := data + "$" + Itoa(num);
        num := num + 1;
      } else {
        data := data + [c];
      }
    }
    return data;
  }

  lemma {:induction false} JoinStep(c: char, rest: seq<string>)
    requires rest != []
    ensures Join([[]] + rest, '?') == "?" + Join(rest, '?')
    ensures Join([[c] + rest[0]] + rest[1..], '?') == [c] + Join(rest, '?')
  {
    assert ([[]] + rest)[1..] == rest;
    var first := [c] + rest[0];
    assert ([first] + rest[1..])[1..] == rest[1..];
    if |rest| > 1 {
      assert first + ['?'] + Join(rest[1..], '?') == [c] + (rest[0] + ['?'] + Join(rest[1..], '?'));
    }
  }

  /** The pieces `ReplaceMarks` keeps are what stands between the question marks: one more than
      there are question marks, none holding one, and joined by question marks the query again.
      So exactly `$1` to `$k` are inserted for `k` of them and nothing else changes. */
  lemma {:induction false} PiecesAreTheQuery(q: string)
    ensures var pieces := Split(q, '?');
      && |pieces| == Marks(q) + 1
      && (forall i :: 0 <= i < |pieces| ==> '?' !in pieces[i])
      && Join(pieces, '?') == q
  {
    if q != [] {
      PiecesAreTheQuery(q[1..]);
      JoinStep(q[0], Split(q[1..], '?'));
    }
  }

  // ---- the k-th placeholder ----

  lemma {:induction false} KthMark(q: string, k: nat) returns (pos: nat)
    requires k < Marks(q)
    ensures pos < |q| && q[pos] == '?' && Marks(q[..pos]) == k
  {
    if q[0] == '?' && k == 0 {
      pos := 0;
      assert q[..0] == [];
    } else {
      var rest := KthMark(q[1..], if q[0] == '?' then k - 1 else k);
      pos := rest + 1;
      assert q[..pos] == [q[0]] + q[1..][..rest];
      MarksConcat([q[0]], q[1..][..rest]);
      assert Marks([q[0]]) == if q[0] == '?' then 1 else 0;
    }
  }

  lemma {:induction false} PieceOfArgument(ps: seq<Piece>, k: nat) returns (i: nat)
    requires (forall p <- ps :: p.Balanced()) && k < |ArgsOf(ps)|
    ensures i < |ps| && var first := Marks(TextOf(ps[..i])); first <= k < first + |ps[i].args|
    decreases |ps|
  {
    assert ps[0].Balanced();
    if k < |ps[0].args| {
      i := 0;
      assert ps[..0] == [];
    } else {
      var j := PieceOfArgument(ps[1..], k - |ps[0].args|);
      i := j + 1;
      assert ps[..i] == [ps[0]] + ps[1..][..j];
      PiecesConcat([ps[0]], ps[1..][..j]);
      OnePiece(ps[0]);
      MarksConcat(ps[0].text, TextOf(ps[1..][..j]));
    }
  }

  /** Numbering from `n` turns the question mark at `pos` to "$" and its number, and numbers what
      stands before and behind it. */
  ghost predicate CutsAt(q: string, pos: nat, n: nat, k: nat)
    requires pos < |q|
  {
    Numbered(Split(q, '?'), n) ==
    Numbered(Split(q[..pos], '?'), n) + ("$" + Itoa(k)) + Numbered(Split(q[pos + 1..], '?'), k + 1)
  }

  lemma CutsFirst(q: string, n: nat)
    requires q != [] && q[0] == '?'
    ensures CutsAt(q, 0, n, n)
  {
    assert q == ['?'] + q[1..];
    NumberedPrefix(q[1..], '?', n);
    assert q[..0] == [];
    assert Numbered(Split([], '?'), n) == [];
  }

  lemma CutsLater(q: string, pos: nat, n: nat, m: nat, k: nat)
    requires 0 < pos < |q| && m == (if q[0] == '?' then n + 1 else n) && CutsAt(q[1..], pos - 1, m, k)
    ensures CutsAt(q, pos, n, k)
  {
    var c, rest := q[0], q[1..];
    var front := rest[..pos - 1];
    assert q == [c] + rest && q[..pos] == [c] + front && q[pos + 1..] == rest[pos..];
    NumberedPrefix(rest, c, n);
    NumberedPrefix(front, c, n);
    var head := if c == '?' then "$" + Itoa(n) else [c];
    Reassociate(head, Numbered(Split(front, '?'), m), "$" + Itoa(k), Numbered(Split(rest[pos..], '?'), k + 1));
  }

  lemma Reassociate(a: string, b: string, c: string, d: string)
    ensures a + (b + c + d) == a + b + c + d
  {
  }

  lemma MarksSnoc(c: char, s: string)
    ensures Marks([c] + s) == (if c == '?' then 1 else 0) + Marks(s)
  {
    assert ([c] + s)[1..] == s;
  }

  lemma {:induction false} NumberedAt(q: string, pos: nat, n: nat)
    requires pos < |q| && q[pos] == '?'
    ensures CutsAt(q, pos, n, n + Marks(q[..pos]))
    decreases pos
  {
    if pos == 0 {
      CutsFirst(q, n);
      assert q[..0] == [];
    } else {
      var m := if q[0] == '?' then n + 1 else n;
      NumberedAt(q[1..], pos - 1, m);
      CutsLater(q, pos, n, m, m + Marks(q[1..][..pos - 1]));
      MarksOfFront(q, pos);
    }
  }

  lemma MarksOfFront(q: string, pos: nat)
    requires 0 < pos <= |q|
    ensures Marks(q[..pos]) == (if q[0] == '?' then 1 else 0) + Marks(q[1..][..pos - 1])
  {
    assert q[..pos] == [q[0]] + q[1..][..pos - 1];
    MarksSnoc(q[0], q[1..][..pos - 1]);
  }

  /** The k-th question mark of the statement, at `pos`, stands in piece `i`, which supplied the
      k-th argument, and numbering replaces just that mark by "$" and `k + 1`. */
  ghost predicate BindsKth(ps: seq<Piece>, k: nat, i: nat, pos: nat) {
    var q := TextOf(ps);
    && i < |ps| && pos < |q| && q[pos] == '?' && Marks(q[..pos]) == k
    && |TextOf(ps[..i])| <= pos < |TextOf(ps[..i])| + |ps[i].text|
    && var first := Marks(TextOf(ps[..i]));
       && first <= k < first + |ps[i].args| && k < |ArgsOf(ps)| && ArgsOf(ps)[k] == ps[i].args[k - first]
       && CutsAt(q, pos, 1, k + 1)
  }

  lemma MarkInPiece(a: string, b: string, c: string, at: nat)
    requires at < |b| && b[at] == '?'
    ensures var q := a + b + c;
            q[|a| + at] == '?' && Marks(q[..|a| + at]) == Marks(a) + Marks(b[..at])
  {
    var q := a + b + c;
    assert q[..|a| + at] == a + b[..at];
    MarksConcat(a, b[..at]);
  }

  lemma InSlice(args: seq<Value>, first: nat, own: seq<Value>, k: nat)
    requires first + |own| <= |args| && args[first..first + |own|] == own && first <= k < first + |own|
    ensures args[k] == own[k - first]
  {
    assert args[first..first + |own|][k - first] == args[k];
  }

  lemma KthPlaceholder(ps: seq<Piece>, k: nat) returns (i: nat, pos: nat)
    requires (forall p <- ps :: p.Balanced()) && k < |ArgsOf(ps)|
    ensures BindsKth(ps, k, i, pos)
  {
    i := PieceOfArgument(ps, k);
    pos := PlaceholderIn(ps, k, i);
  }

  lemma PlaceholderIn(ps: seq<Piece>, k: nat, i: nat) returns (pos: nat)
    requires (forall p <- ps :: p.Balanced()) && i < |ps|
    requires var first := Marks(TextOf(ps[..i])); first <= k < first + |ps[i].args|
    ensures BindsKth(ps, k, i, pos)
  {
    assert ps[i].Balanced();
    PlaceholdersBindOwnArguments(ps, i);
    var a, b := TextOf(ps[..i]), ps[i].text;
    var at := KthMark(b, k - Marks(a));
    pos := |a| + at;
    MarkInPiece(a, b, TextOf(ps[i + 1..]), at);
    InSlice(ArgsOf(ps), Marks(a), ps[i].args, k);
    NumberedAt(TextOf(ps), pos, 1);
  }

  lemma KthArgument(f: Frame, cols: seq<string>, values: seq<Arg>, cond: Condition, k: nat)
    requires |cols| <= |values| && k < |cols| + |Args(cond.params)|
    ensures var args := ArgsOf(Statement(f, cols, values, cond));
      && |args| == |cols| + |Args(cond.params)|
      && args[k] == if k < |cols| then Unwrap(values[k]) else Args(cond.params)[k - |cols|]
  {
    var stored := StatementArgs(f, cols, values, cond, k);
    AtConcat(stored, Args(cond.params), k);
  }

  lemma StatementArgs(f: Frame, cols: seq<string>, values: seq<Arg>, cond: Condition, k: nat) returns (stored: seq<Value>)
    requires |cols| <= |values|
    ensures ArgsOf(Statement(f, cols, values, cond)) == stored + Args(cond.params)
    ensures |stored| == |cols| && (k < |cols| ==> stored[k] == Unwrap(values[k]))
  {
    stored := ArgsOf(SetPieces(f.owner, f.quote, cols, values, |cols|));
    StatementParts(f, cols, values, cond);
    SetArgument(f, cols, values, k);
  }

  lemma SetArgument(f: Frame, cols: seq<string>, values: seq<Arg>, k: nat)
    requires |cols| <= |values|
    ensures var stored := ArgsOf(SetPieces(f.owner, f.quote, cols, values, |cols|));
            |stored| == |cols| && (k < |cols| ==> stored[k] == Unwrap(values[k]))
  {
    SetArgs(f.owner, f.quote, cols, values, |cols|);
  }

  lemma AtConcat(a: seq<Value>, b: seq<Value>, k: nat)
    requires k < |a| + |b|
    ensures (a + b)[k] == if k < |a| then a[k] else b[k - |a|]
  {
  }

  /** The whole way of an UPDATE whose operators the dialect supports: it has as many placeholders
      as arguments; the k-th argument is the k-th assigned value or, behind these, the next one
      of the condition; and the k-th placeholder, "$" and `k + 1` once numbered, stands in the
      clause that supplied it. */
  lemma UpdateBindsKth(f: Frame, cols: seq<string>, values: seq<Arg>, dialect: Dialect, toStr: Value -> string, filter: Filter,
                       params: seq<CondValue>, k: nat)
    returns (i: nat, pos: nat)
    requires |cols| <= |values| && f.MarkFree() && (forall c <- cols :: '?' !in c)
    requires ColumnsMarkFree(filter.parts) && SupportedOnly(dialect, filter.parts)
    requires Compile(dialect, toStr, filter.parts) == Some(params) && k < |cols| + |Args(params)|
    ensures var ps := Statement(f, cols, values, Condition(params));
      && Marks(TextOf(ps)) == |ArgsOf(ps)| == |cols| + |Args(params)|
      && ArgsOf(ps)[k] == (if k < |cols| then Unwrap(values[k]) else Args(params)[k - |cols|])
      && BindsKth(ps, k, i, pos)
      && (k < |cols| ==> ps[i] == SetPiece(f.owner, f.quote, cols, values, k))
  {
    CompiledAtoms(dialect, toStr, filter.parts);
    StatementBalanced(f, cols, values, Condition(params));
    KthArgument(f, cols, values, Condition(params), k);
    i, pos := PlaceholderOf(f, cols, values, Condition(params), k);
  }

  lemma PlaceholderOf(f: Frame, cols: seq<string>, values: seq<Arg>, cond: Condition, k: nat) returns (i: nat, pos: nat)
    requires |cols| <= |values| && f.MarkFree() && (forall c <- cols :: '?' !in c)
    requires (forall p <- Statement(f, cols, values, cond) :: p.Balanced()) && k < |ArgsOf(Statement(f, cols, values, cond))|
    ensures BindsKth(Statement(f, cols, values, cond), k, i, pos)
    ensures k < |cols| ==> Statement(f, cols, values, cond)[i] == SetPiece(f.owner, f.quote, cols, values, k)
  {
    var ps := Statement(f, cols, values, cond);
    if k < |cols| {
      KthAssignment(f, cols, values, cond, k);
      i := k + 1;
      pos := PlaceholderIn(ps, k, i);
    } else {
      i, pos := KthPlaceholder(ps, k);
    }
  }

  /** The k-th assignment is piece `k + 1` of the statement, behind `k` placeholders. */
  lemma KthAssignment(f: Frame, cols: seq<string>, values: seq<Arg>, cond: Condition, k: nat)
    requires |cols| <= |values| && k < |cols| && f.MarkFree() && forall c <- cols :: '?' !in c
    ensures var ps := Statement(f, cols, values, cond);
      k + 1 < |ps| && ps[k + 1] == SetPiece(f.owner, f.quote, cols, values, k) && Marks(TextOf(ps[..k + 1])) == k
  {
    var ps, head := Statement(f, cols, values, cond), Piece(f.prefix + "SET ", []);
    var front := SetPieces(f.owner, f.quote, cols, values, k);
    assert ps[..k + 1] == [head] + front;
    PiecesConcat([head], front);
    OnePiece(head);
    MarksConcat(head.text, TextOf(front));
    NoMarks(head.text);
    SetPiecesBalanced(f.owner, f.quote, cols, values, k);
    BalancedTotal(front);
    SetArgs(f.owner, f.quote, cols, values, k);
  }

  // ---- which values are bound as they were supplied ----

  lemma {:induction false} EscapeLonger(s: string)
    ensures |EscapePercent(s)| >= |s|
    ensures EscapePercent(s) == s <==> '%' !in s
  {
    if s != [] {
      EscapeLonger(s[1..]);
      if s[0] == '%' {
        assert |EscapePercent(s)| == 2 + |EscapePercent(s[1..])|;
      } else {
        assert EscapePercent(s)[1..] == EscapePercent(s[1..]);
        assert s == [s[0]] + s[1..];
      }
    }
  }

  /** The driver gets the arguments as the caller supplied them exactly when: for `exact`, the
      argument is not nil; for `iexact`, it is a text without "%"; never for the LIKE patterns
      and `isnull`; and always for the other operators. */
  lemma BoundAsSuppliedIff(dialect: Dialect, op: Operator, params: seq<Value>, toStr: Value -> string)
    requires GenerateOperatorSQL(dialect, op, params, toStr).Some?
    requires forall s: string :: toStr(Str(s)) == s
    ensures GenerateOperatorSQL(dialect, op, params, toStr).value.1 == params <==>
            match op
            case Exact => params[0] != Null
            case IExact => params[0].Str? && '%' !in params[0].s
            case Contains => false
            case IContains => false
            case StartsWith => false
            case IStartsWith => false
            case EndsWith => false
            case IEndsWith => false
            case IsNull => false
            case _ => true
  {
    if !op.In? && !op.Between? {
      var arg := params[0];
      assert params == [arg];
      if arg.Str? {
        EscapeLonger(arg.s);
        assert toStr(arg) == arg.s;
      }
    }
  }

  /** `exact` with nil compares with the text "IS NULL". */
  lemma NilBindsText(dialect: Dialect, toStr: Value -> string)
    ensures GenerateOperatorSQL(dialect, Exact, [Null], toStr) == Some(("= ?", [Str("IS NULL")]))
  {
    assert "= " + "?" + "" == "= ?";
  }
}
