/**
  What a whole WHERE clause selects: a condition of columns, operators and arguments, compiled by
  `getCondSQL` of `client/orm/db_tables.go`, read back and evaluated on a row.
 */
module FilterMeaning {
  import opened Text
  import opened ConditionSql
  import opened UpdateSql
  import opened OperatorMeaning

  // ---- what a condition asks for ----

  type Row = string -> Value

  /** How many parts belong to the first AND group. */
  function FirstGroup(parts: seq<FilterPart>): (k: nat)
    requires parts != []
    ensures 1 <= k <= |parts|
  {
    if |parts| == 1 || parts[1].isOr then 1 else 1 + FirstGroup(parts[1..])
  }

  /** A condition is the OR of its AND groups, a nested one is a unit, and a comparison is the
      relation its operator is named for. */
  ghost function Selects(db: Db, toStr: Value -> string, row: Row, parts: seq<FilterPart>): Truth
    requires Accepted(parts)
    decreases parts, 2
  {
    if parts == [] then False
    else
      var k := FirstGroup(parts);
      AcceptedSlices(parts, k);
      assert k == |parts| ==> parts[..k] == parts;
      Or3(AllSelect(db, toStr, row, parts[..k]), if k == |parts| then False else Selects(db, toStr, row, parts[k..]))
  }

  ghost function AllSelect(db: Db, toStr: Value -> string, row: Row, parts: seq<FilterPart>): Truth
    requires Accepted(parts)
    decreases parts, 1
  {
    if parts == [] then True else And3(PartSelects(db, toStr, row, parts[0]), AllSelect(db, toStr, row, parts[1..]))
  }

  ghost function PartSelects(db: Db, toStr: Value -> string, row: Row, p: FilterPart): Truth
    requires AcceptedPart(p)
    decreases p, 0
  {
    var t := match p.body
      case Compare(col, op, params) => Named(db, toStr, op, row(col), params)
      case Group(filter) => Selects(db, toStr, row, filter.parts);
    if p.isNot then Not3(t) else t
  }

  /** Every operator has the arguments it takes. */
  ghost predicate Accepted(parts: seq<FilterPart>)
    decreases parts, 1
  {
    forall i :: 0 <= i < |parts| ==> AcceptedPart(parts[i])
  }

  ghost predicate AcceptedPart(p: FilterPart)
    decreases p, 0
  {
    match p.body case Compare(_, op, params) => Accepts(op, params) case Group(filter) => Accepted(filter.parts)
  }

  lemma AcceptedSlices(parts: seq<FilterPart>, k: nat)
    requires Accepted(parts) && k <= |parts|
    ensures Accepted(parts[..k]) && Accepted(parts[k..])
  {
  }

  /** Every column is plain, every operator supported, and its arguments safe. */
  ghost predicate SafeOnly(dialect: Dialect, toStr: Value -> string, parts: seq<FilterPart>)
    decreases parts, 1
  {
    forall i :: 0 <= i < |parts| ==> SafePart(dialect, toStr, parts[i])
  }

  ghost predicate SafePart(dialect: Dialect, toStr: Value -> string, p: FilterPart)
    decreases p, 0
  {
    match p.body
    case Compare(col, op, params) =>
      PlainColumn(col) && Supported(dialect, op) && Accepts(op, params) && Safe(dialect, op, params, toStr)
    case Group(filter) => SafeOnly(dialect, toStr, filter.parts)
  }

  /** No nested condition, at any depth, is empty. */
  ghost predicate NoHoles(parts: seq<FilterPart>)
    decreases parts, 1
  {
    parts != [] && forall i :: 0 <= i < |parts| ==> NoHolesIn(parts[i])
  }

  ghost predicate NoHolesIn(p: FilterPart)
    decreases p, 0
  {
    match p.body case Compare(_, _, _) => true case Group(filter) => NoHoles(filter.parts)
  }

  // ---- the compiled condition has the same shape ----

  lemma {:induction false} CompiledAt(dialect: Dialect, toStr: Value -> string, parts: seq<FilterPart>, i: nat)
    requires Compile(dialect, toStr, parts).Some?
    ensures |Compile(dialect, toStr, parts).value| == |parts|
    ensures i < |parts| ==> CompilePart(dialect, toStr, parts[i]) == Some(Compile(dialect, toStr, parts).value[i])
  {
    if parts != [] {
      CompiledAt(dialect, toStr, parts[1..], if i > 0 then i - 1 else 0);
    }
  }

  lemma {:induction false} CompiledTail(dialect: Dialect, toStr: Value -> string, parts: seq<FilterPart>, k: nat)
    requires Compile(dialect, toStr, parts).Some? && k <= |parts|
    ensures |Compile(dialect, toStr, parts).value| == |parts|
    ensures Compile(dialect, toStr, parts[k..]) == Some(Compile(dialect, toStr, parts).value[k..])
    decreases k
  {
    CompiledAt(dialect, toStr, parts, 0);
    var params := Compile(dialect, toStr, parts).value;
    if k == 0 {
      assert parts[0..] == parts && params[0..] == params;
    } else {
      CompiledTail(dialect, toStr, parts[1..], k - 1);
      assert parts[1..][k - 1..] == parts[k..] && params[1..] == Compile(dialect, toStr, parts[1..]).value;
      assert params[1..][k - 1..] == params[k..];
    }
  }

  lemma {:induction false} CompiledFront(dialect: Dialect, toStr: Value -> string, parts: seq<FilterPart>, k: nat)
    requires Compile(dialect, toStr, parts).Some? && k <= |parts|
    ensures |Compile(dialect, toStr, parts).value| == |parts|
    ensures Compile(dialect, toStr, parts[..k]) == Some(Compile(dialect, toStr, parts).value[..k])
    decreases k
  {
    CompiledAt(dialect, toStr, parts, 0);
    var params := Compile(dialect, toStr, parts).value;
    if k > 0 {
      CompiledFront(dialect, toStr, parts[1..], k - 1);
      assert parts[..k][1..] == parts[1..][..k - 1] && params[1..] == Compile(dialect, toStr, parts[1..]).value;
      assert params[..k] == [params[0]] + params[1..][..k - 1];
    }
  }

  lemma {:induction false} SameGroups(dialect: Dialect, toStr: Value -> string, parts: seq<FilterPart>)
    requires parts != [] && Compile(dialect, toStr, parts).Some?
    ensures |Compile(dialect, toStr, parts).value| == |parts|
    ensures GroupLen(Compile(dialect, toStr, parts).value) == FirstGroup(parts)
  {
    CompiledAt(dialect, toStr, parts, 1);
    if |parts| > 1 && !parts[1].isOr {
      SameGroups(dialect, toStr, parts[1..]);
      CompiledTail(dialect, toStr, parts, 1);
    }
  }

  lemma {:induction false} SameHoles(dialect: Dialect, toStr: Value -> string, parts: seq<FilterPart>)
    requires Compile(dialect, toStr, parts).Some?
    ensures Solid(Compile(dialect, toStr, parts).value) <==> NoHoles(parts)
    decreases parts, 1
  {
    var params := Compile(dialect, toStr, parts).value;
    CompiledAt(dialect, toStr, parts, 0);
    forall i | 0 <= i < |parts|
      ensures SolidPart(params[i]) <==> NoHolesIn(parts[i])
    {
      CompiledAt(dialect, toStr, parts, i);
      SameHolesIn(dialect, toStr, parts[i]);
    }
  }

  lemma {:induction false} SameHolesIn(dialect: Dialect, toStr: Value -> string, p: FilterPart)
    requires CompilePart(dialect, toStr, p).Some?
    ensures SolidPart(CompilePart(dialect, toStr, p).value) <==> NoHolesIn(p)
    decreases p, 0
  {
    if p.body.Group? {
      SameHoles(dialect, toStr, p.body.filter.parts);
    }
  }

  // ---- and the same meaning ----

  /** Every comparison of a clause read back and evaluated on the row. */
  function ReadOn(db: Db, dialect: Dialect, row: Row): Env {
    (a: Atom) =>
      match Read(a.sql)
      case None => Unknown
      case Some(r) =>
        match Evaluate(db, dialect, r.side, r.check, row(r.col), a.args) case None => Unknown case Some(t) => t
  }

  lemma ComparisonSelects(db: Db, dialect: Dialect, toStr: Value -> string, row: Row, col: string, op: Operator, params: seq<Value>)
    requires Sane(db) && PlainColumn(col) && Supported(dialect, op) && Accepts(op, params) && Safe(dialect, op, params, toStr)
    ensures Comparison(dialect, col, op, params, toStr).Some?
    ensures ReadOn(db, dialect, row)(Comparison(dialect, col, op, params, toStr).value) == Named(db, toStr, op, row(col), params)
  {
    OperatorMeansIff(db, dialect, col, op, params, toStr);
    var a := Comparison(dialect, col, op, params, toStr).value;
    assert Outcome(db, dialect, a, row(col)) == Some(Named(db, toStr, op, row(col), params));
  }

  lemma {:induction false} PartMeans(db: Db, dialect: Dialect, toStr: Value -> string, row: Row, p: FilterPart)
    requires Sane(db) && SafePart(dialect, toStr, p) && AcceptedPart(p) && CompilePart(dialect, toStr, p).Some?
    ensures PartMeaning(CompilePart(dialect, toStr, p).value, ReadOn(db, dialect, row)) == PartSelects(db, toStr, row, p)
    decreases p, 0
  {
    match p.body
    case Compare(col, op, params) => ComparisonSelects(db, dialect, toStr, row, col, op, params);
    case Group(filter) => CompiledMeans(db, dialect, toStr, row, filter.parts);
  }

  lemma {:induction false} GroupMeans(db: Db, dialect: Dialect, toStr: Value -> string, row: Row, parts: seq<FilterPart>)
    requires Sane(db) && SafeOnly(dialect, toStr, parts) && Accepted(parts) && Compile(dialect, toStr, parts).Some?
    ensures All(Compile(dialect, toStr, parts).value, ReadOn(db, dialect, row)) == AllSelect(db, toStr, row, parts)
    decreases parts, 1
  {
    if parts != [] {
      PartMeans(db, dialect, toStr, row, parts[0]);
      GroupMeans(db, dialect, toStr, row, parts[1..]);
      assert Compile(dialect, toStr, parts).value[1..] == Compile(dialect, toStr, parts[1..]).value;
    }
  }

  /** The compiled condition, its comparisons read as text, means what the condition asks for. */
  lemma {:induction false} CompiledMeans(db: Db, dialect: Dialect, toStr: Value -> string, row: Row, parts: seq<FilterPart>)
    requires Sane(db) && SafeOnly(dialect, toStr, parts) && Accepted(parts) && Compile(dialect, toStr, parts).Some?
    ensures Meaning(Compile(dialect, toStr, parts).value, ReadOn(db, dialect, row)) == Selects(db, toStr, row, parts)
    decreases parts, 2
  {
    if parts != [] {
      var k := FirstGroup(parts);
      SameGroups(dialect, toStr, parts);
      CompiledFront(dialect, toStr, parts, k);
      CompiledTail(dialect, toStr, parts, k);
      AcceptedSlices(parts, k);
      SafeSlices(dialect, toStr, parts, k);
      assert k == |parts| ==> parts[..k] == parts;
      GroupMeans(db, dialect, toStr, row, parts[..k]);
      if k < |parts| {
        CompiledMeans(db, dialect, toStr, row, parts[k..]);
      }
    }
  }

  lemma SafeSlices(dialect: Dialect, toStr: Value -> string, parts: seq<FilterPart>, k: nat)
    requires SafeOnly(dialect, toStr, parts) && k <= |parts|
    ensures SafeOnly(dialect, toStr, parts[..k]) && SafeOnly(dialect, toStr, parts[k..])
  {
  }

  /** A condition is compiled, without a panic, exactly when every operator has the arguments it
      takes. */
  lemma {:induction false} CompilesIff(dialect: Dialect, toStr: Value -> string, parts: seq<FilterPart>)
    ensures Compile(dialect, toStr, parts).Some? <==> Accepted(parts)
    decreases parts, 1
  {
    if parts != [] {
      PartCompilesIff(dialect, toStr, parts[0]);
      CompilesIff(dialect, toStr, parts[1..]);
      assert Accepted(parts) <==> AcceptedPart(parts[0]) && Accepted(parts[1..]) by {
        assert forall i :: 1 <= i < |parts| ==> parts[i] == parts[1..][i - 1];
      }
    }
  }

  lemma {:induction false} PartCompilesIff(dialect: Dialect, toStr: Value -> string, p: FilterPart)
    ensures CompilePart(dialect, toStr, p).Some? <==> AcceptedPart(p)
    decreases p, 0
  {
    match p.body
    case Compare(_, op, params) => PanicsIff(dialect, op, params, toStr);
    case Group(filter) => CompilesIff(dialect, toStr, filter.parts);
  }

  // ---- the words between the comparisons ----

  /** A piece of a clause as a word or a comparison. */
  function ReadPiece(p: Piece): Token {
    if p.text == "AND " then And
    else if p.text == "OR " then Or
    else if p.text == "NOT " then Not
    else if p.text == "( " then Open
    else if p.text == ") " then Close
    else Test(Atom(if p.text == "" then "" else p.text[..|p.text| - 1], p.args))
  }

  ghost predicate HasSpace(a: Atom) { ' ' in a.sql }

  lemma PieceReads(t: Token)
    requires t.Test? ==> HasSpace(t.atom)
    ensures ReadPiece(TokenPiece(t)) == t
  {
    if t.Test? {
      var sql := t.atom.sql;
      var i :| 0 <= i < |sql| && sql[i] == ' ';
      var text := sql + " ";
      assert text[i] == ' ' && i < |text| - 1;
      assert text[..|text| - 1] == sql;
    }
  }

  /** Piece by piece, a clause reads back as its words and comparisons. */
  lemma {:induction false} ClauseWords(ts: seq<Token>)
    requires EveryTest(ts, HasSpace)
    ensures |TokenPieces(ts)| == |ts| && forall i :: 0 <= i < |ts| ==> ReadPiece(TokenPieces(ts)[i]) == ts[i]
  {
    if ts != [] {
      PieceReads(ts[0]);
      ClauseWords(ts[1..]);
    }
  }

  lemma ComparisonHasSpace(dialect: Dialect, col: string, op: Operator, params: seq<Value>, toStr: Value -> string)
    requires Comparison(dialect, col, op, params, toStr).Some?
    ensures HasSpace(Comparison(dialect, col, op, params, toStr).value)
  {
    var left := LeftCol(dialect, op, col);
    assert Comparison(dialect, col, op, params, toStr).value.sql[|left|] == ' ';
  }

  lemma {:induction false} CompiledHaveSpaces(dialect: Dialect, toStr: Value -> string, parts: seq<FilterPart>)
    requires Compile(dialect, toStr, parts).Some?
    ensures EveryAtom(Compile(dialect, toStr, parts).value, HasSpace)
    decreases parts, 1
  {
    if parts != [] {
      PartHasSpaces(dialect, toStr, parts[0]);
      CompiledHaveSpaces(dialect, toStr, parts[1..]);
      var params := Compile(dialect, toStr, parts).value;
      assert params[1..] == Compile(dialect, toStr, parts[1..]).value;
      FirstAtoms(params, HasSpace);
    }
  }

  lemma {:induction false} PartHasSpaces(dialect: Dialect, toStr: Value -> string, p: FilterPart)
    requires CompilePart(dialect, toStr, p).Some?
    ensures EveryAtomOf(CompilePart(dialect, toStr, p).value, HasSpace)
    decreases p, 0
  {
    match p.body
    case Compare(col, op, params) => ComparisonHasSpace(dialect, col, op, params, toStr);
    case Group(filter) => CompiledHaveSpaces(dialect, toStr, filter.parts);
  }

  /** The words and comparisons of the pieces of a clause. */
  function Words(ps: seq<Piece>): seq<Token> { seq(|ps|, i requires 0 <= i < |ps| => ReadPiece(ps[i])) }

  lemma WordsOfClause(dialect: Dialect, toStr: Value -> string, parts: seq<FilterPart>, params: seq<CondValue>)
    requires Compile(dialect, toStr, parts) == Some(params)
    ensures Words(TokenPieces(Emit(params))) == Emit(params)
  {
    CompiledHaveSpaces(dialect, toStr, parts);
    ClauseTests(params, HasSpace);
    ClauseWords(Emit(params));
  }

  /** The WHERE clause of a condition with safe arguments, read from its text, is SQL exactly when
      no nested condition is empty, and then it selects the rows the condition asks for. */
  lemma WhereSelects(db: Db, dialect: Dialect, toStr: Value -> string, row: Row, filter: Filter, params: seq<CondValue>)
    requires Sane(db) && SafeOnly(dialect, toStr, filter.parts) && Accepted(filter.parts)
    requires Compile(dialect, toStr, filter.parts) == Some(params)
    ensures var read := Parse(Words(TokenPieces(Emit(params))));
      && (read.Ok? <==> NoHoles(filter.parts))
      && (NoHoles(filter.parts) ==> Eval(read.e, ReadOn(db, dialect, row)) == Selects(db, toStr, row, filter.parts))
  {
    WordsOfClause(dialect, toStr, filter.parts, params);
    SameHoles(dialect, toStr, filter.parts);
    ClauseMeansCondition(Condition(params));
    CompiledMeans(db, dialect, toStr, row, filter.parts);
  }
}
