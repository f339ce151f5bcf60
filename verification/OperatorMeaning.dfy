/**
  What the comparisons of a WHERE clause compare: the text `GenerateOperatorSQL` and
  `GenerateOperatorLeftCol` write, read as MySQL or PostgreSQL reads it and evaluated on a row,
  against what the operators are named for.
 */
module OperatorMeaning {
  import opened Text
  import opened ConditionSql
  import opened UpdateSql
  import opened LikePattern

  // ---- a reader of comparisons ----

  /** The left side: the column, the column as text, or that in upper case. */
  datatype Side = Bare | AsText | Upper

  datatype Relation = Equal | Different | Above | AtLeast | Below | AtMost

  datatype Check =
    | Order(rel: Relation)
    | BinaryEqual
    | UpperEqual
    | LikeText
    | LikeBinary
    | LikeUpper
    | Among(n: nat)
    | Within
    | IsNil
    | IsNotNil

  datatype Reading = Reading(col: string, side: Side, check: Check)

  function ReadSide(left: string): (Side, string) {
    var n := |left|;
    if n >= 13 && left[..6] == "UPPER(" && left[n - 7..] == "::text)" then (Upper, left[6..n - 7])
    else if n >= 6 && left[n - 6..] == "::text" then (AsText, left[..n - 6])
    else (Bare, left)
  }

  /** A list of placeholders: how many. */
  function ReadList(s: string): Option<nat> {
    var items := Split(s, ',');
    if items[0] == "?" && forall i :: 1 <= i < |items| ==> items[i] == " ?" then Some(|items|) else None
  }

  function ReadCheck(right: string): Option<Check> {
    if |right| >= 5 && right[1] == 'N' then
      if right[..4] != "IN (" || right[|right| - 1] != ')' then None
      else match ReadList(right[4..|right| - 1]) case None => None case Some(n) => Some(Among(n))
    else if right == "= ?" then Some(Order(Equal))
    else if right == "!= ?" then Some(Order(Different))
    else if right == "> ?" then Some(Order(Above))
    else if right == ">= ?" then Some(Order(AtLeast))
    else if right == "< ?" then Some(Order(Below))
    else if right == "<= ?" then Some(Order(AtMost))
    else if right == "= BINARY ?" then Some(BinaryEqual)
    else if right == "= UPPER(?)" then Some(UpperEqual)
    else if right == "LIKE ?" then Some(LikeText)
    else if right == "LIKE BINARY ?" then Some(LikeBinary)
    else if right == "LIKE UPPER(?)" then Some(LikeUpper)
    else if right == "BETWEEN ? AND ?" then Some(Within)
    else if right == "IS NULL" then Some(IsNil)
    else if right == "IS NOT NULL" then Some(IsNotNil)
    else None
  }

  /** The column up to the first space, the check behind it. */
  function Read(sql: string): Option<Reading> {
    var left := Split(sql, ' ')[0];
    if |left| >= |sql| then None
    else
      var (side, col) := ReadSide(left);
      match ReadCheck(sql[|left| + 1..]) case None => None case Some(check) => Some(Reading(col, side, check))
  }

  // ---- what a database makes of it ----

  /** The order of the database on values, what a value is as text, and which characters differ
      in case only. */
  datatype Db = Db(cmp: (Value, Value) -> int, text: Value -> string, fold: Fold)

  ghost predicate Sane(db: Db) { Keeps(db.fold) && forall s: string :: db.text(Str(s)) == s }

  function Sure(b: bool): Truth { if b then True else False }

  /** Nothing is known of a null. */
  function Known(v: Value, a: Value, b: bool): Truth { if v.Null? || a.Null? then Unknown else Sure(b) }

  function Holds(rel: Relation, c: int): bool {
    match rel
    case Equal => c == 0
    case Different => c != 0
    case Above => c > 0
    case AtLeast => c >= 0
    case Below => c < 0
    case AtMost => c <= 0
  }

  function Ordered(db: Db, rel: Relation, v: Value, a: Value): Truth { Known(v, a, Holds(rel, db.cmp(v, a))) }

  function AnyOf(db: Db, v: Value, args: seq<Value>): Truth {
    if args == [] then False else Or3(Ordered(db, Equal, v, args[0]), AnyOf(db, v, args[1..]))
  }

  /** The value of a comparison for column value `v`; None is not SQL of the dialect. */
  function Evaluate(db: Db, dialect: Dialect, side: Side, check: Check, v: Value, args: seq<Value>): Option<Truth> {
    if side.Bare? && check.Among? then (if |args| == check.n then Some(AnyOf(db, v, args)) else None)
    else if side.Bare? && check.Within? then
      (if |args| == 2 then Some(And3(Ordered(db, AtLeast, v, args[0]), Ordered(db, AtMost, v, args[1]))) else None)
    else if side.Bare? && check.IsNil? then (if args == [] then Some(Sure(v.Null?)) else None)
    else if side.Bare? && check.IsNotNil? then (if args == [] then Some(Sure(!v.Null?)) else None)
    else if |args| != 1 then None
    else
      var a := args[0];
      var t, p := db.text(v), db.text(a);
      match (dialect, side, check)
      case (_, Bare, Order(rel)) => Some(Ordered(db, rel, v, a))
      case (MySql, Bare, BinaryEqual) => Some(Known(v, a, t == p))
      case (MySql, Bare, LikeText) => Some(Known(v, a, Like(db.fold, true, t, p)))
      case (MySql, Bare, LikeBinary) => Some(Known(v, a, Like(Exactly, true, t, p)))
      case (Postgres, AsText, LikeText) => Some(Known(v, a, Like(Exactly, false, t, p)))
      case (Postgres, Upper, UpperEqual) => Some(Known(v, a, Folded(db.fold, t) == Folded(db.fold, p)))
      case (Postgres, Upper, LikeUpper) => Some(Known(v, a, Like(Exactly, false, Folded(db.fold, t), Folded(db.fold, p))))
      case _ => None
  }

  /** The comparison as text and arguments, on a column value. */
  function Outcome(db: Db, dialect: Dialect, a: Atom, v: Value): Option<Truth> {
    match Read(a.sql) case None => None case Some(r) => Evaluate(db, dialect, r.side, r.check, v, a.args)
  }

  // ---- what the operators are named for ----

  /** The arguments an operator takes; others are a panic. */
  predicate Accepts(op: Operator, params: seq<Value>) {
    match op
    case In => |params| >= 1
    case Between => |params| == 2
    case IsNull => |params| == 1 && params[0].Bool?
    case _ => |params| == 1
  }

  lemma PanicsIff(dialect: Dialect, op: Operator, params: seq<Value>, toStr: Value -> string)
    ensures GenerateOperatorSQL(dialect, op, params, toStr).Some? <==> Accepts(op, params)
  {
  }

  /** The relation an operator is named for, between a column value and its arguments. */
  ghost function Named(db: Db, toStr: Value -> string, op: Operator, v: Value, params: seq<Value>): Truth
    requires Accepts(op, params)
  {
    var a := params[0];
    var t, n := db.text(v), toStr(a);
    match op
    case Exact => if a.Null? then Sure(v.Null?) else Known(v, a, db.cmp(v, a) == 0)
    case Eq => Known(v, a, db.cmp(v, a) == 0)
    case Ne => Known(v, a, db.cmp(v, a) != 0)
    case Nq => Known(v, a, db.cmp(v, a) != 0)
    case Gt => Known(v, a, db.cmp(v, a) > 0)
    case Gte => Known(v, a, db.cmp(v, a) >= 0)
    case Lt => Known(v, a, db.cmp(v, a) < 0)
    case Lte => Known(v, a, db.cmp(v, a) <= 0)
    case StrictExact => Known(v, a, t == db.text(a))
    case IExact => if v.Null? then Unknown else Sure(Equals(db.fold, t, n))
    case Contains => if v.Null? then Unknown else Sure(LikePattern.Occurs(Exactly, t, n))
    case IContains => if v.Null? then Unknown else Sure(Occurs(db.fold, t, n))
    case StartsWith => if v.Null? then Unknown else Sure(Starts(Exactly, t, n))
    case IStartsWith => if v.Null? then Unknown else Sure(Starts(db.fold, t, n))
    case EndsWith => if v.Null? then Unknown else Sure(EndsIn(Exactly, t, n))
    case IEndsWith => if v.Null? then Unknown else Sure(EndsIn(db.fold, t, n))
    case In =>
      if exists i :: 0 <= i < |params| && !v.Null? && !params[i].Null? && db.cmp(v, params[i]) == 0 then True
      else if v.Null? || Null in params then Unknown else False
    case Between => And3(Known(v, a, db.cmp(v, a) >= 0), Known(v, params[1], db.cmp(v, params[1]) <= 0))
    case IsNull => Sure(v.Null? == a.b)
  }

  /** The arguments for which the comparison means what its operator is named for. */
  ghost predicate Safe(dialect: Dialect, op: Operator, params: seq<Value>, toStr: Value -> string)
    requires Accepts(op, params)
  {
    var n := toStr(params[0]);
    match op
    case Exact => params[0] != Null
    case IExact => if dialect.Postgres? then '%' !in n else PlainNeedle(n, true)
    case EndsWith => PlainNeedle(n, dialect.MySql?)
    case IEndsWith => PlainNeedle(n, dialect.MySql?)
    case Contains => PlainNeedle(n, false)
    case IContains => PlainNeedle(n, false)
    case StartsWith => PlainNeedle(n, false)
    case IStartsWith => PlainNeedle(n, false)
    case _ => true
  }

  // ---- the text reads back ----

  /** A column name as `getCondSQL` writes it, without signs the reader looks at. */
  ghost predicate PlainColumn(col: string) { ' ' !in col && ':' !in col && '(' !in col }

  function SideOf(dialect: Dialect, op: Operator): Side {
    if dialect.MySql? then Bare
    else match op
    case Contains => AsText
    case StartsWith => AsText
    case EndsWith => AsText
    case IExact => Upper
    case IContains => Upper
    case IStartsWith => Upper
    case IEndsWith => Upper
    case _ => Bare
  }

  function CheckOf(dialect: Dialect, op: Operator, params: seq<Value>): Check
    requires Accepts(op, params)
  {
    match op
    case Exact => Order(Equal)
    case Eq => Order(Equal)
    case Ne => Order(Different)
    case Nq => Order(Different)
    case Gt => Order(Above)
    case Gte => Order(AtLeast)
    case Lt => Order(Below)
    case Lte => Order(AtMost)
    case StrictExact => BinaryEqual
    case IExact => if dialect.MySql? then LikeText else UpperEqual
    case Contains => if dialect.MySql? then LikeBinary else LikeText
    case StartsWith => if dialect.MySql? then LikeBinary else LikeText
    case EndsWith => if dialect.MySql? then LikeBinary else LikeText
    case IContains => if dialect.MySql? then LikeText else LikeUpper
    case IStartsWith => if dialect.MySql? then LikeText else LikeUpper
    case IEndsWith => if dialect.MySql? then LikeText else LikeUpper
    case In => Among(|params|)
    case Between => Within
    case IsNull => if params[0].b then IsNil else IsNotNil
  }

  lemma BareReads(col: string)
    requires PlainColumn(col)
    ensures ReadSide(col) == (Bare, col)
  {
    var n := |col|;
    if n >= 6 {
      assert col[n - 6..][0] == col[n - 6] && col[n - 6] in col;
    }
    if n >= 13 {
      assert col[..6][5] == col[5] && col[5] in col;
    }
  }

  lemma TextReads(col: string)
    ensures ReadSide(col + "::text") == (AsText, col)
  {
    var left := col + "::text";
    var n := |left|;
    assert left[n - 6..] == "::text" && left[..n - 6] == col;
    if n >= 13 {
      assert left[n - 7..][6] == 't';
    }
  }

  lemma UpperReads(col: string)
    ensures ReadSide("UPPER(" + col + "::text)") == (Upper, col)
  {
    var left := "UPPER(" + col + "::text)";
    var n := |left|;
    assert left[..6] == "UPPER(";
    assert left[n - 7..] == "::text)";
    assert left[6..n - 7] == col;
  }

  function Wrapped(side: Side, col: string): string {
    match side case Bare => col case AsText => col + "::text" case Upper => "UPPER(" + col + "::text)"
  }

  lemma LeftColIs(dialect: Dialect, op: Operator, col: string)
    ensures LeftCol(dialect, op, col) == Wrapped(SideOf(dialect, op), col)
  {
  }

  lemma SideReads(side: Side, col: string)
    requires PlainColumn(col)
    ensures ReadSide(Wrapped(side, col)) == (side, col)
    ensures ' ' !in Wrapped(side, col)
  {
    match side
    case Bare => BareReads(col);
    case AsText => TextReads(col);
    case Upper => UpperReads(col);
  }

  lemma {:induction false} ListReads(n: nat)
    requires n > 0
    ensures ReadList(MarkList(n)) == Some(n)
  {
    ListItems(n);
  }

  lemma {:induction false} ListItems(n: nat)
    requires n > 0
    ensures Split(MarkList(n), ',') == ["?"] + seq(n - 1, i => " ?")
    ensures Split(" " + MarkList(n), ',') == seq(n, i => " ?")
  {
    SplitNone("?", ',');
    SplitNone(" ?", ',');
    if n == 1 {
      assert " " + "?" == " ?";
      assert seq(1, i => " ?") == [" ?"];
    } else {
      ListItems(n - 1);
      var more := " " + MarkList(n - 1);
      assert MarkList(n) == "?" + [','] + more;
      SplitPrefix("?", ',', more);
      assert " " + MarkList(n) == " ?" + [','] + more;
      SplitPrefix(" ?", ',', more);
      assert [" ?"] + seq(n - 1, i => " ?") == seq(n, i => " ?");
    }
  }

  lemma InReads(n: nat)
    requires n > 0
    ensures ReadCheck("IN (" + MarkList(n) + ")") == Some(Among(n))
  {
    var s := "IN (" + MarkList(n) + ")";
    ListReads(n);
    assert MarkList(n) != "";
    assert s[0] == 'I' && s[1] == 'N' && s[..4] == "IN (" && s[4..|s| - 1] == MarkList(n);
  }

  lemma OrderReads(dialect: Dialect, op: Operator, params: seq<Value>)
    requires InTable(dialect, op) && Accepts(op, params) && !Searches(op)
    ensures ReadCheck(OperatorSQL(dialect, op)) == Some(CheckOf(dialect, op, params))
  {
    var sql := OperatorSQL(dialect, op);
    match op
    case Exact => assert sql == "= ?";
    case Eq => assert sql == "= ?";
    case Ne => assert sql == "!= ?";
    case Gt => assert sql == "> ?";
    case Gte => assert sql == ">= ?";
    case Lt => assert sql == "< ?";
    case Lte => assert sql == "<= ?";
    case StrictExact => assert sql == "= BINARY ?";
  }

  lemma SearchReads(dialect: Dialect, op: Operator, params: seq<Value>)
    requires InTable(dialect, op) && Accepts(op, params) && Searches(op)
    ensures ReadCheck(OperatorSQL(dialect, op)) == Some(CheckOf(dialect, op, params))
  {
    var sql := OperatorSQL(dialect, op);
    match op
    case IExact => assert sql == if dialect.MySql? then "LIKE ?" else "= UPPER(?)";
    case Contains => assert sql == if dialect.MySql? then "LIKE BINARY ?" else "LIKE ?";
    case StartsWith => assert sql == if dialect.MySql? then "LIKE BINARY ?" else "LIKE ?";
    case EndsWith => assert sql == if dialect.MySql? then "LIKE BINARY ?" else "LIKE ?";
    case IContains => assert sql == if dialect.MySql? then "LIKE ?" else "LIKE UPPER(?)";
    case IStartsWith => assert sql == if dialect.MySql? then "LIKE ?" else "LIKE UPPER(?)";
    case IEndsWith => assert sql == if dialect.MySql? then "LIKE ?" else "LIKE UPPER(?)";
  }

  lemma CheckReads(dialect: Dialect, op: Operator, params: seq<Value>, toStr: Value -> string)
    requires Supported(dialect, op) && Accepts(op, params)
    ensures GenerateOperatorSQL(dialect, op, params, toStr).Some?
    ensures ReadCheck(GenerateOperatorSQL(dialect, op, params, toStr).value.0) == Some(CheckOf(dialect, op, params))
  {
    if op.In? {
      InReads(|params|);
    } else if Searches(op) {
      SearchReads(dialect, op, params);
    } else if !op.Between? && !op.IsNull? {
      OrderReads(dialect, op, params);
    }
  }

  /** Every comparison reads back as its column and the check of its operator. */
  lemma ComparisonReads(dialect: Dialect, col: string, op: Operator, params: seq<Value>, toStr: Value -> string)
    requires PlainColumn(col) && Supported(dialect, op) && Accepts(op, params)
    ensures Comparison(dialect, col, op, params, toStr).Some?
    ensures Read(Comparison(dialect, col, op, params, toStr).value.sql) ==
            Some(Reading(col, SideOf(dialect, op), CheckOf(dialect, op, params)))
  {
    CheckReads(dialect, op, params, toStr);
    LeftColIs(dialect, op, col);
    SideReads(SideOf(dialect, op), col);
    var left, right := LeftCol(dialect, op, col), GenerateOperatorSQL(dialect, op, params, toStr).value.0;
    var sql := left + " " + right;
    SplitPrefix(left, ' ', right);
    assert sql == left + [' '] + right && sql[|left| + 1..] == right;
  }

  // ---- comparisons of one argument that is bound as it is ----

  ghost predicate Means(db: Db, dialect: Dialect, a: Atom, op: Operator, params: seq<Value>, toStr: Value -> string)
    requires Accepts(op, params)
  {
    forall v :: Outcome(db, dialect, a, v) == Some(Named(db, toStr, op, v, params))
  }

  predicate Searches(op: Operator) {
    op.IExact? || op.Contains? || op.IContains? || op.StartsWith? || op.IStartsWith? || op.EndsWith? || op.IEndsWith?
  }

  lemma {:induction false} AnyOfIs(db: Db, v: Value, args: seq<Value>)
    ensures AnyOf(db, v, args) ==
            if exists i :: 0 <= i < |args| && !v.Null? && !args[i].Null? && db.cmp(v, args[i]) == 0 then True
            else if args != [] && (v.Null? || Null in args) then Unknown else False
  {
    if args != [] {
      AnyOfIs(db, v, args[1..]);
      assert forall i :: 1 <= i < |args| ==> args[i] == args[1..][i - 1];
      assert Null in args <==> args[0] == Null || Null in args[1..];
    }
  }

  /** A comparison is evaluated as its operator's check on the arguments it binds. */
  lemma OutcomeIs(db: Db, dialect: Dialect, col: string, op: Operator, params: seq<Value>, toStr: Value -> string, v: Value)
    requires PlainColumn(col) && Supported(dialect, op) && Accepts(op, params)
    ensures Comparison(dialect, col, op, params, toStr).Some?
    ensures var a := Comparison(dialect, col, op, params, toStr).value;
      Outcome(db, dialect, a, v) == Evaluate(db, dialect, SideOf(dialect, op), CheckOf(dialect, op, params), v, a.args)
  {
    ComparisonReads(dialect, col, op, params, toStr);
  }

  lemma BoundAsGiven(dialect: Dialect, col: string, op: Operator, params: seq<Value>, toStr: Value -> string)
    requires Accepts(op, params) && !Searches(op) && (op.Exact? ==> params[0] != Null)
    ensures Comparison(dialect, col, op, params, toStr).Some?
    ensures Comparison(dialect, col, op, params, toStr).value.args == if op.IsNull? then [] else params
  {
    if !op.In? && !op.Between? {
      assert params == [params[0]];
    }
  }

  lemma EvaluatesAsNamed(db: Db, dialect: Dialect, op: Operator, params: seq<Value>, toStr: Value -> string, v: Value)
    requires Supported(dialect, op) && Accepts(op, params) && !Searches(op) && (op.Exact? ==> params[0] != Null)
    ensures Evaluate(db, dialect, SideOf(dialect, op), CheckOf(dialect, op, params), v, if op.IsNull? then [] else params) ==
            Some(Named(db, toStr, op, v, params))
  {
    if op.In? {
      AnyOfIs(db, v, params);
    }
  }

  lemma OtherMeans(db: Db, dialect: Dialect, col: string, op: Operator, params: seq<Value>, toStr: Value -> string)
    requires PlainColumn(col) && Supported(dialect, op) && Accepts(op, params) && !Searches(op)
    requires op.Exact? ==> params[0] != Null
    ensures Comparison(dialect, col, op, params, toStr).Some?
    ensures Means(db, dialect, Comparison(dialect, col, op, params, toStr).value, op, params, toStr)
  {
    BoundAsGiven(dialect, col, op, params, toStr);
    forall v
      ensures Outcome(db, dialect, Comparison(dialect, col, op, params, toStr).value, v) == Some(Named(db, toStr, op, v, params))
    {
      OutcomeIs(db, dialect, col, op, params, toStr, v);
      EvaluatesAsNamed(db, dialect, op, params, toStr, v);
    }
  }

  /** `exact` with nil asks for nulls and finds none. */
  lemma NilFindsNothing(db: Db, dialect: Dialect, col: string, toStr: Value -> string)
    requires PlainColumn(col)
    ensures Comparison(dialect, col, Exact, [Null], toStr).Some?
    ensures var a := Comparison(dialect, col, Exact, [Null], toStr).value;
      Outcome(db, dialect, a, Null) == Some(Unknown) && Named(db, toStr, Exact, Null, [Null]) == True
  {
    ComparisonReads(dialect, col, Exact, [Null], toStr);
  }

  lemma NilIsWrong(db: Db, dialect: Dialect, col: string, params: seq<Value>, toStr: Value -> string)
    requires PlainColumn(col) && Accepts(Exact, params) && params[0] == Null
    ensures Comparison(dialect, col, Exact, params, toStr).Some?
    ensures !Means(db, dialect, Comparison(dialect, col, Exact, params, toStr).value, Exact, params, toStr)
  {
    assert params == [Null];
    NilFindsNothing(db, dialect, col, toStr);
  }

  // ---- the search operators ----

  function PlaceOf(op: Operator): Place
    requires Searches(op)
  {
    match op
    case IExact => Whole
    case StartsWith => Front
    case IStartsWith => Front
    case EndsWith => Back
    case IEndsWith => Back
    case _ => Inside
  }

  function FoldOf(db: Db, op: Operator): Fold {
    if op.Contains? || op.StartsWith? || op.EndsWith? then Exactly else db.fold
  }

  lemma BoundPattern(dialect: Dialect, col: string, op: Operator, params: seq<Value>, toStr: Value -> string)
    requires Searches(op) && Accepts(op, params)
    ensures Comparison(dialect, col, op, params, toStr).Some?
    ensures Comparison(dialect, col, op, params, toStr).value.args == [Str(PatternOf(PlaceOf(op), toStr(params[0])))]
  {
  }

  lemma NamedFound(db: Db, toStr: Value -> string, op: Operator, v: Value, params: seq<Value>)
    requires Searches(op) && Accepts(op, params)
    ensures Named(db, toStr, op, v, params) ==
            if v.Null? then Unknown else Sure(Found(PlaceOf(op), FoldOf(db, op), db.text(v), toStr(params[0])))
  {
    var t, n := db.text(v), toStr(params[0]);
    match op
    case IExact => assert Found(Whole, db.fold, t, n) == Equals(db.fold, t, n);
    case Contains => assert Found(Inside, Exactly, t, n) == Occurs(Exactly, t, n);
    case IContains => assert Found(Inside, db.fold, t, n) == Occurs(db.fold, t, n);
    case StartsWith => assert Found(Front, Exactly, t, n) == Starts(Exactly, t, n);
    case IStartsWith => assert Found(Front, db.fold, t, n) == Starts(db.fold, t, n);
    case EndsWith => assert Found(Back, Exactly, t, n) == EndsIn(Exactly, t, n);
    case IEndsWith => assert Found(Back, db.fold, t, n) == EndsIn(db.fold, t, n);
  }

  /** What the database makes of a search: the pattern on the text of the column. */
  lemma SearchOutcome(db: Db, dialect: Dialect, col: string, op: Operator, params: seq<Value>, toStr: Value -> string, v: Value)
    requires Sane(db) && PlainColumn(col) && Searches(op) && Accepts(op, params) && !(dialect.Postgres? && op.IExact?)
    ensures Comparison(dialect, col, op, params, toStr).Some?
    ensures Outcome(db, dialect, Comparison(dialect, col, op, params, toStr).value, v) ==
            Some(if v.Null? then Unknown
                 else Sure(Like(FoldOf(db, op), dialect.MySql?, db.text(v), PatternOf(PlaceOf(op), toStr(params[0])))))
  {
    OutcomeIs(db, dialect, col, op, params, toStr, v);
    BoundPattern(dialect, col, op, params, toStr);
    EvaluatesSearch(db, dialect, op, params, v, PatternOf(PlaceOf(op), toStr(params[0])));
  }

  lemma EvaluatesSearch(db: Db, dialect: Dialect, op: Operator, params: seq<Value>, v: Value, p: string)
    requires Sane(db) && Searches(op) && Accepts(op, params) && !(dialect.Postgres? && op.IExact?)
    ensures Evaluate(db, dialect, SideOf(dialect, op), CheckOf(dialect, op, params), v, [Str(p)]) ==
            Some(if v.Null? then Unknown else Sure(Like(FoldOf(db, op), dialect.MySql?, db.text(v), p)))
  {
    assert db.text(Str(p)) == p;
    FoldedLike(db.fold, false, db.text(v), p);
  }

  lemma SearchMeansIff(db: Db, dialect: Dialect, col: string, op: Operator, params: seq<Value>, toStr: Value -> string)
    requires Sane(db) && PlainColumn(col) && Searches(op) && Accepts(op, params) && !(dialect.Postgres? && op.IExact?)
    ensures Comparison(dialect, col, op, params, toStr).Some?
    ensures Means(db, dialect, Comparison(dialect, col, op, params, toStr).value, op, params, toStr) <==>
            PlainNeedle(toStr(params[0]), dialect.MySql? && (PlaceOf(op).Whole? || PlaceOf(op).Back?))
  {
    var fold, lone, place, n := FoldOf(db, op), dialect.MySql?, PlaceOf(op), toStr(params[0]);
    BoundPattern(dialect, col, op, params, toStr);
    var a := Comparison(dialect, col, op, params, toStr).value;
    PatternMeansIff(place, fold, lone, n);
    if FindsRight(place, fold, lone, n) {
      forall v
        ensures Outcome(db, dialect, a, v) == Some(Named(db, toStr, op, v, params))
      {
        SearchOutcome(db, dialect, col, op, params, toStr, v);
        NamedFound(db, toStr, op, v, params);
      }
    } else {
      var t :| Like(fold, lone, t, PatternOf(place, n)) != Found(place, fold, t, n);
      SearchOutcome(db, dialect, col, op, params, toStr, Str(t));
      NamedFound(db, toStr, op, Str(t), params);
      assert db.text(Str(t)) == t;
    }
  }

  /** `iexact` in PostgreSQL compares with the escaped needle. */
  lemma UpperMeansIff(db: Db, col: string, params: seq<Value>, toStr: Value -> string)
    requires Sane(db) && PlainColumn(col) && Accepts(IExact, params)
    ensures Comparison(Postgres, col, IExact, params, toStr).Some?
    ensures Means(db, Postgres, Comparison(Postgres, col, IExact, params, toStr).value, IExact, params, toStr) <==>
            '%' !in toStr(params[0])
  {
    var n := toStr(params[0]);
    BoundPattern(Postgres, col, IExact, params, toStr);
    var a := Comparison(Postgres, col, IExact, params, toStr).value;
    if '%' in n {
      UpperOutcome(db, col, params, toStr, Str(n));
      EscapedIsLonger(n);
      assert db.text(Str(n)) == n && !Equals(db.fold, n, EscapePercent(n)) && Equals(db.fold, n, n);
    } else {
      EscapeLonger(n);
      forall v
        ensures Outcome(db, Postgres, a, v) == Some(Named(db, toStr, IExact, v, params))
      {
        UpperOutcome(db, col, params, toStr, v);
      }
    }
  }

  lemma UpperOutcome(db: Db, col: string, params: seq<Value>, toStr: Value -> string, v: Value)
    requires Sane(db) && PlainColumn(col) && Accepts(IExact, params)
    ensures Comparison(Postgres, col, IExact, params, toStr).Some?
    ensures Outcome(db, Postgres, Comparison(Postgres, col, IExact, params, toStr).value, v) ==
            Some(if v.Null? then Unknown else Sure(Equals(db.fold, db.text(v), EscapePercent(toStr(params[0])))))
  {
    OutcomeIs(db, Postgres, col, IExact, params, toStr, v);
    BoundPattern(Postgres, col, IExact, params, toStr);
    var p := EscapePercent(toStr(params[0]));
    assert db.text(Str(p)) == p;
  }

  lemma {:induction false} EscapedIsLonger(s: string)
    ensures '%' in s ==> |EscapePercent(s)| > |s|
    ensures |EscapePercent(s)| >= |s|
  {
    if s != [] {
      EscapedIsLonger(s[1..]);
    }
  }

  /** For every dialect and every operator it supports: the comparison, its text read and its
      arguments bound, is the relation the operator is named for, whatever the column holds, if
      and only if the arguments are safe. */
  lemma OperatorMeansIff(db: Db, dialect: Dialect, col: string, op: Operator, params: seq<Value>, toStr: Value -> string)
    requires Sane(db) && PlainColumn(col) && Supported(dialect, op) && Accepts(op, params)
    ensures Comparison(dialect, col, op, params, toStr).Some?
    ensures var a := Comparison(dialect, col, op, params, toStr).value;
      && Read(a.sql).Some? && Read(a.sql).value.col == col
      && (Means(db, dialect, a, op, params, toStr) <==> Safe(dialect, op, params, toStr))
  {
    ComparisonReads(dialect, col, op, params, toStr);
    MeansIffSafe(db, dialect, col, op, params, toStr);
  }

  lemma SearchMeansIffSafe(db: Db, dialect: Dialect, col: string, op: Operator, params: seq<Value>, toStr: Value -> string)
    requires Sane(db) && PlainColumn(col) && Searches(op) && Accepts(op, params)
    ensures Comparison(dialect, col, op, params, toStr).Some?
    ensures Means(db, dialect, Comparison(dialect, col, op, params, toStr).value, op, params, toStr) <==>
            Safe(dialect, op, params, toStr)
  {
    if dialect.Postgres? && op.IExact? {
      UpperMeansIff(db, col, params, toStr);
    } else {
      SearchMeansIff(db, dialect, col, op, params, toStr);
    }
  }

  lemma MeansIffSafe(db: Db, dialect: Dialect, col: string, op: Operator, params: seq<Value>, toStr: Value -> string)
    requires Sane(db) && PlainColumn(col) && Supported(dialect, op) && Accepts(op, params)
    ensures Comparison(dialect, col, op, params, toStr).Some?
    ensures Means(db, dialect, Comparison(dialect, col, op, params, toStr).value, op, params, toStr) <==>
            Safe(dialect, op, params, toStr)
  {
    if Searches(op) {
      SearchMeansIffSafe(db, dialect, col, op, params, toStr);
    } else if op.Exact? && params[0] == Null {
      NilIsWrong(db, dialect, col, params, toStr);
    } else {
      OtherMeans(db, dialect, col, op, params, toStr);
    }
  }

  // ---- two arguments that are not safe ----

  /** `contains` with "_" finds every text that is not empty, for one "x". */
  lemma UnderscoreFindsAny(db: Db, dialect: Dialect, col: string, toStr: Value -> string, params: seq<Value>)
    requires Sane(db) && PlainColumn(col) && params == [Str("_")] && toStr(Str("_")) == "_"
    ensures Comparison(dialect, col, Contains, params, toStr).Some?
    ensures Outcome(db, dialect, Comparison(dialect, col, Contains, params, toStr).value, Str("x")) == Some(True)
    ensures Named(db, toStr, Contains, Str("x"), params) == False
  {
    SearchOutcome(db, dialect, col, Contains, params, toStr, Str("x"));
    NamedFound(db, toStr, Contains, Str("x"), params);
    UnderscoreIsWild(Exactly, dialect.MySql?);
    assert db.text(Str("x")) == "x";
  }

  /** `iexact` with "%" does not find "%" in PostgreSQL. */
  lemma PercentNotFound(db: Db, col: string, toStr: Value -> string, params: seq<Value>)
    requires Sane(db) && PlainColumn(col) && params == [Str("%")] && toStr(Str("%")) == "%"
    ensures Comparison(Postgres, col, IExact, params, toStr).Some?
    ensures Outcome(db, Postgres, Comparison(Postgres, col, IExact, params, toStr).value, Str("%")) == Some(False)
    ensures Named(db, toStr, IExact, Str("%"), params) == True
  {
    UpperOutcome(db, col, params, toStr, Str("%"));
    EscapedIsLonger("%");
    assert db.text(Str("%")) == "%";
    assert !Equals(db.fold, "%", EscapePercent("%")) && Equals(db.fold, "%", "%");
  }
}
