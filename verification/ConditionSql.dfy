/**
  The condition language of `client/orm/orm_conds.go` and its translation to a WHERE clause
  by `getCondSQL` of `client/orm/db_tables.go`.
 */
module ConditionSql {

  /** A bound argument. */
  datatype Value = Null | Bool(b: bool) | Int(n: int) | Str(s: string)

  /** One comparison: the SQL text of column and operator, and the arguments it binds. */
  datatype Atom = Atom(sql: string, args: seq<Value>)

  datatype Condition = Condition(params: seq<CondValue>)

  datatype CondValue = CondValue(isOr: bool, isNot: bool, body: Body)

  datatype Body = Leaf(atom: Atom) | Nested(cond: Condition)

  datatype Token = And | Or | Not | Open | Close | Test(atom: Atom)

  // ---- what getCondSQL emits ----

  /** The clause of a condition: its first part, then each further part behind its connective. */
  function Emit(params: seq<CondValue>): seq<Token>
    decreases params, 2
  {
    if params == [] then [] else EmitPart(params[0]) + EmitRest(params[1..])
  }

  function EmitRest(params: seq<CondValue>): seq<Token>
    decreases params, 1
  {
    if params == [] then []
    else [if params[0].isOr then Or else And] + EmitPart(params[0]) + EmitRest(params[1..])
  }

  function EmitPart(p: CondValue): seq<Token>
    decreases p, 0
  {
    (if p.isNot then [Not] else []) +
    match p.body
    case Leaf(atom) => [Test(atom)]
    case Nested(cond) =>
      var w := Emit(cond.params);
      if w == [] then [] else [Open] + w + [Close]
  }

  /** The arguments of a condition, in the order of its comparisons. */
  function Args(params: seq<CondValue>): seq<Value>
    decreases params, 1
  {
    if params == [] then [] else PartArgs(params[0]) + Args(params[1..])
  }

  function PartArgs(p: CondValue): seq<Value>
    decreases p, 0
  {
    match p.body
    case Leaf(atom) => atom.args
    case Nested(cond) => Args(cond.params)
  }

  lemma {:induction false} EmitSnoc(params: seq<CondValue>, p: CondValue)
    ensures EmitRest(params + [p]) == EmitRest(params) + [if p.isOr then Or else And] + EmitPart(p)
    ensures Args(params + [p]) == Args(params) + PartArgs(p)
  {
    var link := [if p.isOr then Or else And] + EmitPart(p);
    if params == [] {
      OnlyOne(p);
      assert params + [p] == [p];
    } else {
      var q := params + [p];
      assert q[0] == params[0] && q[1..] == params[1..] + [p];
      EmitSnoc(params[1..], p);
    }
  }

  lemma OnlyOne(p: CondValue)
    ensures EmitRest([p]) == [if p.isOr then Or else And] + EmitPart(p) && Args([p]) == PartArgs(p)
  {
    assert [p][1..] == [];
  }

  lemma EmitAppend(params: seq<CondValue>, p: CondValue)
    ensures Emit(params + [p]) ==
            if params == [] then EmitPart(p) else Emit(params) + [if p.isOr then Or else And] + EmitPart(p)
    ensures Args(params + [p]) == Args(params) + PartArgs(p)
  {
    EmitSnoc(params, p);
    if params == [] {
      assert params + [p] == [p];
    } else {
      EmitSnoc(params[1..], p);
      assert (params + [p])[1..] == params[1..] + [p];
    }
  }

  /** `getCondSQL` without the leading "WHERE ". */
  method GetCondSQL(cond: Condition) returns (where: seq<Token>, params: seq<Value>)
    ensures where == Emit(cond.params) && params == Args(cond.params)
    decreases cond
  {
    where, params := [], [];
    for i := 0 to |cond.params|
      invariant where == Emit(cond.params[..i]) && params == Args(cond.params[..i])
    {
      var p := cond.params[i];
      if i > 0 {
        where := where + [if p.isOr then Or else And];
      }
      var part := if p.isNot then [Not] else [];
      match p.body {
        case Nested(sub) =>
          var w, ps := GetCondSQL(sub);
          if w != [] {
            w := [Open] + w + [Close];
          }
          part, params := part + w, params + ps;
        case Leaf(atom) =>
          part, params := part + [Test(atom)], params + atom.args;
      }
      assert part == EmitPart(p);
      where := where + part;
      assert cond.params[..i + 1] == cond.params[..i] + [p];
      EmitAppend(cond.params[..i], p);
    }
    assert cond.params[..|cond.params|] == cond.params;
  }

  // ---- the meaning of a condition, under three-valued logic ----

  datatype Truth = True | False | Unknown

  function Not3(a: Truth): Truth {
    match a case True => False case False => True case Unknown => Unknown
  }

  function And3(a: Truth, b: Truth): Truth {
    if a == False || b == False then False else if a == True then b else a
  }

  function Or3(a: Truth, b: Truth): Truth {
    if a == True || b == True then True else if a == False then b else a
  }

  type Env = Atom -> Truth

  /** How many parts belong to the first AND group. */
  function GroupLen(params: seq<CondValue>): (k: nat)
    requires params != []
    ensures 1 <= k <= |params|
    ensures k < |params| ==> params[k].isOr
  {
    if |params| == 1 || params[1].isOr then 1 else 1 + GroupLen(params[1..])
  }

  /** A condition is the OR of its AND groups; a new group starts at each OR part. */
  ghost function Meaning(params: seq<CondValue>, env: Env): Truth
    decreases params, 2
  {
    if params == [] then False
    else
      var k := GroupLen(params);
      assert k == |params| ==> params[..k] == params;
      Or3(All(params[..k], env), if k == |params| then False else Meaning(params[k..], env))
  }

  ghost function All(params: seq<CondValue>, env: Env): Truth
    decreases params, 1
  {
    if params == [] then True else And3(PartMeaning(params[0], env), All(params[1..], env))
  }

  /** A nested condition is a unit, whatever it is made of. */
  ghost function PartMeaning(p: CondValue, env: Env): Truth
    decreases p, 0
  {
    var v := match p.body case Leaf(atom) => env(atom) case Nested(cond) => Meaning(cond.params, env);
    if p.isNot then Not3(v) else v
  }

  /** No nested condition, at any depth, is empty. */
  ghost predicate Solid(params: seq<CondValue>)
    decreases params, 1
  {
    params != [] && forall i :: 0 <= i < |params| ==> SolidPart(params[i])
  }

  ghost predicate SolidPart(p: CondValue)
    decreases p, 0
  {
    p.body.Nested? ==> Solid(p.body.cond.params)
  }

  // ---- the SQL reading of a clause: NOT binds tighter than AND, AND tighter than OR ----

  datatype Expr = EAtom(atom: Atom) | ENot(e: Expr) | EAnd(l: Expr, r: Expr) | EOr(l: Expr, r: Expr)

  ghost function Eval(e: Expr, env: Env): Truth {
    match e
    case EAtom(a) => env(a)
    case ENot(x) => Not3(Eval(x, env))
    case EAnd(l, r) => And3(Eval(l, env), Eval(r, env))
    case EOr(l, r) => Or3(Eval(l, env), Eval(r, env))
  }

  datatype Parsed = Fail | Ok(e: Expr, rest: seq<Token>)

  function ParseOr(ts: seq<Token>): (r: Parsed)
    ensures r.Ok? ==> |r.rest| < |ts|
    decreases |ts|, 2
  {
    match ParseAnd(ts)
    case Fail => Fail
    case Ok(l, rest) =>
      if rest == [] || rest[0] != Or then Ok(l, rest)
      else match ParseOr(rest[1..]) case Fail => Fail case Ok(r, rest') => Ok(EOr(l, r), rest')
  }

  function ParseAnd(ts: seq<Token>): (r: Parsed)
    ensures r.Ok? ==> |r.rest| < |ts|
    decreases |ts|, 1
  {
    match ParseNot(ts)
    case Fail => Fail
    case Ok(l, rest) =>
      if rest == [] || rest[0] != And then Ok(l, rest)
      else match ParseAnd(rest[1..]) case Fail => Fail case Ok(r, rest') => Ok(EAnd(l, r), rest')
  }

  function ParseNot(ts: seq<Token>): (r: Parsed)
    ensures r.Ok? ==> |r.rest| < |ts|
    decreases |ts|, 0
  {
    if ts == [] then Fail
    else match ts[0]
    case Test(a) => Ok(EAtom(a), ts[1..])
    case Not => (match ParseNot(ts[1..]) case Fail => Fail case Ok(e, rest) => Ok(ENot(e), rest))
    case Open => (
      match ParseOr(ts[1..])
      case Fail => Fail
      case Ok(e, rest) => if rest == [] || rest[0] != Close then Fail else Ok(e, rest[1..]))
    case _ => Fail
  }

  /** Reads a whole clause. */
  function Parse(ts: seq<Token>): Parsed {
    var r := ParseOr(ts);
    if r.Ok? && r.rest == [] then r else Fail
  }

  // ---- the expression a condition should read back as ----

  ghost function ToOr(params: seq<CondValue>): Expr
    requires Solid(params)
    decreases params, 3
  {
    var k := GroupLen(params);
    SolidTail(params, k);
    if k == |params| then ToAnd(params) else EOr(ToAnd(params), ToOr(params[k..]))
  }

  /** The first AND group. */
  ghost function ToAnd(params: seq<CondValue>): Expr
    requires Solid(params)
    decreases params, 2
  {
    SolidTail(params, 1);
    if |params| == 1 || params[1].isOr then ToPart(params[0]) else EAnd(ToPart(params[0]), ToAnd(params[1..]))
  }

  ghost function ToPart(p: CondValue): Expr
    requires SolidPart(p)
    decreases p, 0
  {
    var e := match p.body case Leaf(atom) => EAtom(atom) case Nested(cond) => ToOr(cond.params);
    if p.isNot then ENot(e) else e
  }

  lemma SolidTail(params: seq<CondValue>, k: nat)
    requires Solid(params) && k <= |params|
    ensures k < |params| ==> Solid(params[k..])
  {
  }

  lemma {:induction false} EvalAnd(params: seq<CondValue>, env: Env)
    requires Solid(params)
    ensures Eval(ToAnd(params), env) == All(params[..GroupLen(params)], env)
    decreases params, 1
  {
    var k := GroupLen(params);
    EvalPart(params[0], env);
    if |params| == 1 || params[1].isOr {
      assert params[..k][1..] == [];
    } else {
      SolidTail(params, 1);
      EvalAnd(params[1..], env);
      assert params[..k][1..] == params[1..][..k - 1];
    }
  }

  lemma {:induction false} EvalPart(p: CondValue, env: Env)
    requires SolidPart(p)
    ensures Eval(ToPart(p), env) == PartMeaning(p, env)
    decreases p, 0
  {
    if p.body.Nested? {
      EvalOr(p.body.cond.params, env);
    }
  }

  lemma {:induction false} EvalOr(params: seq<CondValue>, env: Env)
    requires Solid(params)
    ensures Eval(ToOr(params), env) == Meaning(params, env)
    decreases params, 2
  {
    var k := GroupLen(params);
    EvalAnd(params, env);
    if k < |params| {
      SolidTail(params, k);
      EvalOr(params[k..], env);
    }
  }

  // ---- reading back what was emitted ----

  /** What may follow a part: the end, a closing parenthesis or a connective. */
  ghost predicate Follow(rest: seq<Token>) { rest == [] || rest[0] == Close || rest[0] == And || rest[0] == Or }

  /** What may follow a whole clause. */
  ghost predicate Ends(rest: seq<Token>) { rest == [] || rest[0] == Close }

  lemma ReadNot(ts: seq<Token>)
    ensures ParseNot([Not] + ts) == match ParseNot(ts) case Fail => Fail case Ok(e, rest) => Ok(ENot(e), rest)
  {
    assert ([Not] + ts)[1..] == ts;
  }

  lemma ReadParens(ts: seq<Token>, rest: seq<Token>)
    ensures ParseOr(ts).Fail? ==> ParseNot([Open] + ts).Fail?
    ensures ParseOr(ts).Ok? && ParseOr(ts).rest == [Close] + rest ==> ParseNot([Open] + ts) == Ok(ParseOr(ts).e, rest)
  {
    assert ([Open] + ts)[1..] == ts;
    assert ([Close] + rest)[1..] == rest;
  }

  lemma ReadAnd(ts: seq<Token>, more: seq<Token>)
    requires ParseNot(ts).Ok? && ParseNot(ts).rest == [And] + more
    ensures ParseAnd(ts) == match ParseAnd(more) case Fail => Fail case Ok(e, rest) => Ok(EAnd(ParseNot(ts).e, e), rest)
  {
    assert ([And] + more)[1..] == more;
  }

  lemma ReadOr(ts: seq<Token>, more: seq<Token>)
    requires ParseAnd(ts).Ok? && ParseAnd(ts).rest == [Or] + more
    ensures ParseOr(ts) == match ParseOr(more) case Fail => Fail case Ok(e, rest) => Ok(EOr(ParseAnd(ts).e, e), rest)
  {
    assert ([Or] + more)[1..] == more;
  }

  /** The shape of an emitted part, with or without its NOT. */
  lemma PartShape(p: CondValue, rest: seq<Token>)
    requires p.body.Leaf? || Emit(p.body.cond.params) != []
    ensures var bare := if p.body.Leaf? then [Test(p.body.atom)] + rest else [Open] + (Emit(p.body.cond.params) + ([Close] + rest));
            EmitPart(p) + rest == if p.isNot then [Not] + bare else bare
  {
  }

  /** The shape of an emitted clause at its first connective. */
  lemma ClauseShape(params: seq<CondValue>, k: nat, rest: seq<Token>)
    requires 0 < k <= |params|
    ensures EmitRest(params[k..]) + rest ==
            if k == |params| then rest
            else [if params[k].isOr then Or else And] + (Emit(params[k..]) + rest)
  {
    if k < |params| {
      assert params[k..][1..] == params[k + 1..];
    }
  }

  lemma {:induction false} PartReadsBack(p: CondValue, rest: seq<Token>)
    requires SolidPart(p)
    ensures ParseNot(EmitPart(p) + rest) == Ok(ToPart(p), rest)
    decreases p, 0
  {
    var bare: seq<Token>;
    match p.body {
      case Leaf(atom) =>
        bare := [Test(atom)] + rest;
        assert bare[1..] == rest;
      case Nested(cond) =>
        var w := Emit(cond.params);
        ClauseReadsBack(cond.params, [Close] + rest);
        bare := [Open] + (w + ([Close] + rest));
        ReadParens(w + ([Close] + rest), rest);
    }
    PartShape(p, rest);
    ReadNot(bare);
  }

  /** The first AND group is read, up to the OR that ends it. */
  lemma {:induction false} GroupReadsBack(params: seq<CondValue>, rest: seq<Token>)
    requires Solid(params) && Ends(rest)
    ensures ParseAnd(Emit(params) + rest) == Ok(ToAnd(params), EmitRest(params[GroupLen(params)..]) + rest)
    decreases params, 1
  {
    var tail := EmitRest(params[1..]) + rest;
    assert Emit(params) + rest == EmitPart(params[0]) + tail;
    PartReadsBack(params[0], tail);
    ClauseShape(params, 1, rest);
    if |params| > 1 && !params[1].isOr {
      var k := GroupLen(params);
      SolidTail(params, 1);
      GroupReadsBack(params[1..], rest);
      ReadAnd(Emit(params) + rest, Emit(params[1..]) + rest);
      assert params[1..][k - 1..] == params[k..];
    }
  }

  lemma {:induction false} ClauseReadsBack(params: seq<CondValue>, rest: seq<Token>)
    requires Solid(params) && Ends(rest)
    ensures Emit(params) != [] && ParseOr(Emit(params) + rest) == Ok(ToOr(params), rest)
    decreases params, 2
  {
    var k := GroupLen(params);
    GroupReadsBack(params, rest);
    ClauseShape(params, k, rest);
    if k < |params| {
      SolidTail(params, k);
      ClauseReadsBack(params[k..], rest);
      ReadOr(Emit(params) + rest, Emit(params[k..]) + rest);
    }
    assert |Emit(params) + rest| > |rest|;
  }

  // ---- a clause with an empty nested condition is not SQL ----

  lemma {:induction false} PartFails(p: CondValue, rest: seq<Token>)
    requires !SolidPart(p) && Follow(rest)
    ensures ParseNot(EmitPart(p) + rest) == Fail
    decreases p, 0
  {
    var w := Emit(p.body.cond.params);
    if w == [] {
      assert EmitPart(p) + rest == (if p.isNot then [Not] + rest else rest);
      ReadNot(rest);
    } else {
      ClauseFails(p.body.cond.params, [Close] + rest);
      ReadParens(w + ([Close] + rest), rest);
      PartShape(p, rest);
      ReadNot([Open] + (w + ([Close] + rest)));
    }
  }

  /** Fails, unless the hole lies in a later group. */
  lemma TailNotSolid(params: seq<CondValue>)
    requires params != [] && SolidPart(params[0]) && !Solid(params)
    ensures |params| > 1 && !Solid(params[1..])
  {
    var i :| 0 <= i < |params| && !SolidPart(params[i]);
    assert params[1..][i - 1] == params[i];
  }

  lemma {:induction false} GroupFails(params: seq<CondValue>, rest: seq<Token>)
    requires params != [] && !Solid(params) && Ends(rest)
    ensures var r := ParseAnd(Emit(params) + rest);
      var k := GroupLen(params);
      r.Fail? || (k < |params| && r.rest == EmitRest(params[k..]) + rest && !Solid(params[k..]))
    decreases params, 1
  {
    var tail := EmitRest(params[1..]) + rest;
    assert Emit(params) + rest == EmitPart(params[0]) + tail;
    ClauseShape(params, 1, rest);
    if !SolidPart(params[0]) {
      PartFails(params[0], tail);
    } else {
      PartReadsBack(params[0], tail);
      TailNotSolid(params);
      if !params[1].isOr {
        var k := GroupLen(params);
        GroupFails(params[1..], rest);
        ReadAnd(Emit(params) + rest, Emit(params[1..]) + rest);
        assert params[1..][k - 1..] == params[k..];
      }
    }
  }

  lemma {:induction false} ClauseFails(params: seq<CondValue>, rest: seq<Token>)
    requires !Solid(params) && Ends(rest)
    ensures ParseOr(Emit(params) + rest) == Fail
    decreases params, 2
  {
    if params == [] {
      assert Emit(params) + rest == rest;
    } else {
      var k := GroupLen(params);
      GroupFails(params, rest);
      if ParseAnd(Emit(params) + rest).Ok? {
        ClauseShape(params, k, rest);
        ClauseFails(params[k..], rest);
        ReadOr(Emit(params) + rest, Emit(params[k..]) + rest);
      }
    }
  }

  /** The emitted clause is SQL exactly when no nested condition is empty, and then it means
      what the condition means, for every value of its comparisons. */
  lemma ClauseMeansCondition(c: Condition)
    ensures Parse(Emit(c.params)).Ok? <==> Solid(c.params)
    ensures Solid(c.params) ==>
              forall env: Env :: Eval(Parse(Emit(c.params)).e, env) == Meaning(c.params, env)
  {
    var ts := Emit(c.params);
    assert ts + [] == ts;
    if Solid(c.params) {
      ClauseReadsBack(c.params, []);
      forall env: Env
        ensures Eval(ToOr(c.params), env) == Meaning(c.params, env)
      {
        EvalOr(c.params, env);
      }
    } else {
      ClauseFails(c.params, []);
    }
  }

  /** No clause at all is emitted exactly for an empty condition, possibly wrapped in nested
      conditions that hold nothing else. */
  ghost predicate Hollow(c: Condition) {
    || c.params == []
    || (|c.params| == 1 && !c.params[0].isNot && c.params[0].body.Nested? && Hollow(c.params[0].body.cond))
  }

  lemma {:induction false} NoClauseIffHollow(c: Condition)
    ensures Emit(c.params) == [] <==> Hollow(c)
  {
    if c.params != [] && c.params[0].body.Nested? {
      NoClauseIffHollow(c.params[0].body.cond);
    }
  }

  /** So a condition can be non-empty for `IsEmpty` and still select every row. */
  lemma NestedEmptyHasNoClause()
    ensures var c := AndCond(Condition([]), Condition([]));
            !IsEmpty(c) && Emit(c.params) == []
  {
  }

  // ---- the builders ----

  predicate IsEmpty(c: Condition) { |c.params| == 0 }

  function AndAtom(c: Condition, a: Atom): Condition { Condition(c.params + [CondValue(false, false, Leaf(a))]) }

  function AndNotAtom(c: Condition, a: Atom): Condition { Condition(c.params + [CondValue(false, true, Leaf(a))]) }

  function OrAtom(c: Condition, a: Atom): Condition { Condition(c.params + [CondValue(true, false, Leaf(a))]) }

  function OrNotAtom(c: Condition, a: Atom): Condition { Condition(c.params + [CondValue(true, true, Leaf(a))]) }

  function AndCond(c: Condition, d: Condition): Condition { Condition(c.params + [CondValue(false, false, Nested(d))]) }

  function AndNotCond(c: Condition, d: Condition): Condition { Condition(c.params + [CondValue(false, true, Nested(d))]) }

  function OrCond(c: Condition, d: Condition): Condition { Condition(c.params + [CondValue(true, false, Nested(d))]) }

  function OrNotCond(c: Condition, d: Condition): Condition { Condition(c.params + [CondValue(true, true, Nested(d))]) }

  /** Where the last AND group starts. */
  function LastGroup(params: seq<CondValue>): (k: nat)
    requires params != []
    ensures k < |params|
  {
    var last := |params| - 1;
    if last == 0 || params[last].isOr then last else LastGroup(params[..last])
  }

  lemma {:induction false} GroupLenAppend(params: seq<CondValue>, p: CondValue)
    requires params != []
    ensures GroupLen(params + [p]) ==
            if GroupLen(params) == |params| && !p.isOr then |params| + 1 else GroupLen(params)
  {
    if |params| > 1 && !params[1].isOr {
      GroupLenAppend(params[1..], p);
      assert (params + [p])[1..] == params[1..] + [p];
    }
  }

  lemma {:induction false} AllAppend(params: seq<CondValue>, p: CondValue, env: Env)
    ensures All(params + [p], env) == And3(All(params, env), PartMeaning(p, env))
  {
    if params == [] {
      assert (params + [p])[1..] == [];
    } else {
      AllAppend(params[1..], p, env);
      assert (params + [p])[1..] == params[1..] + [p];
    }
  }

  /** An OR part adds an alternative to the whole condition. */
  lemma {:induction false} OrPartAdds(params: seq<CondValue>, p: CondValue, env: Env)
    requires params != [] && p.isOr
    ensures Meaning(params + [p], env) == Or3(Meaning(params, env), PartMeaning(p, env))
    decreases |params|
  {
    var k := GroupLen(params);
    GroupLenAppend(params, p);
    assert (params + [p])[..k] == params[..k];
    assert (params + [p])[k..] == params[k..] + [p];
    if k < |params| {
      OrPartAdds(params[k..], p, env);
    } else {
      assert params[k..] + [p] == [p];
      assert All([p], env) == And3(PartMeaning(p, env), All([], env)) by {
        assert [p][1..] == [];
      }
      assert [p][..1] == [p];
    }
  }

  /** An AND part restricts only the last AND group, not the whole condition. */
  lemma {:induction false} AndPartRestricts(params: seq<CondValue>, p: CondValue, env: Env)
    requires params != [] && !p.isOr
    ensures var k := LastGroup(params);
      && Meaning(params, env) == Or3(Meaning(params[..k], env), All(params[k..], env))
      && Meaning(params + [p], env) == Or3(Meaning(params[..k], env), And3(All(params[k..], env), PartMeaning(p, env)))
    decreases |params|
  {
    var n := GroupLen(params);
    if n == |params| {
      AndRestrictsOneGroup(params, p, env);
    } else {
      var k, tail := LastGroup(params), params[n..];
      LastGroupOfTail(params);
      AndPartRestricts(tail, p, env);
      var j := LastGroup(tail);
      assert tail[j..] == params[k..] && tail[..j] == params[n..k];
      Peel(params, n, env);
      FirstGroupPeeled(params, k, env);
      AppendPeeled(params, p, env);
      OrAssociates(All(params[..n], env), Meaning(params[n..k], env), All(params[k..], env));
      OrAssociates(All(params[..n], env), Meaning(params[n..k], env), And3(All(params[k..], env), PartMeaning(p, env)));
    }
  }

  lemma AndRestrictsOneGroup(params: seq<CondValue>, p: CondValue, env: Env)
    requires params != [] && !p.isOr && GroupLen(params) == |params|
    ensures LastGroup(params) == 0 && params[0..] == params
    ensures Meaning(params, env) == Or3(Meaning(params[..0], env), All(params, env))
    ensures Meaning(params + [p], env) == Or3(Meaning(params[..0], env), And3(All(params, env), PartMeaning(p, env)))
  {
    OneGroup(params);
    GroupLenAppend(params, p);
    var q := params + [p];
    assert params[..|params|] == params && q[..|q|] == q && params[|params|..] == [] && q[|q|..] == [];
    Peel(params, |params|, env);
    Peel(q, |q|, env);
    AllAppend(params, p, env);
  }

  /** The meaning peels off group by group. */
  lemma Peel(params: seq<CondValue>, n: nat, env: Env)
    requires params != [] && n == GroupLen(params)
    ensures Meaning(params, env) == Or3(All(params[..n], env), Meaning(params[n..], env))
  {
  }

  lemma FirstGroupPeeled(params: seq<CondValue>, k: nat, env: Env)
    requires params != [] && GroupLen(params) <= k <= |params|
    ensures var n := GroupLen(params);
            Meaning(params[..k], env) == Or3(All(params[..n], env), Meaning(params[n..k], env))
  {
    var n := GroupLen(params);
    FirstGroupOfPrefix(params, k);
    Peel(params[..k], n, env);
    assert params[..k][..n] == params[..n];
    assert params[..k][n..] == params[n..k];
  }

  lemma AppendPeeled(params: seq<CondValue>, p: CondValue, env: Env)
    requires params != [] && GroupLen(params) < |params|
    ensures var n := GroupLen(params);
            Meaning(params + [p], env) == Or3(All(params[..n], env), Meaning(params[n..] + [p], env))
  {
    var n, q := GroupLen(params), params + [p];
    GroupLenAppend(params, p);
    PeelInto(q, params[..n], params[n..] + [p], env);
  }

  lemma PeelInto(q: seq<CondValue>, front: seq<CondValue>, back: seq<CondValue>, env: Env)
    requires q != [] && q == front + back && |front| == GroupLen(q)
    ensures Meaning(q, env) == Or3(All(front, env), Meaning(back, env))
  {
    assert q[..|front|] == front && q[|front|..] == back;
    Peel(q, |front|, env);
  }

  lemma OrAssociates(a: Truth, b: Truth, c: Truth)
    ensures Or3(a, Or3(b, c)) == Or3(Or3(a, b), c)
  {
  }

  lemma {:induction false} OneGroup(params: seq<CondValue>)
    requires params != []
    ensures GroupLen(params) == |params| ==> LastGroup(params) == 0
  {
    var last := |params| - 1;
    if last > 0 {
      GroupLenAppend(params[..last], params[last]);
      assert params[..last] + [params[last]] == params;
      OneGroup(params[..last]);
    }
  }

  lemma {:induction false} LastGroupOfTail(params: seq<CondValue>)
    requires params != [] && GroupLen(params) < |params|
    ensures LastGroup(params) == GroupLen(params) + LastGroup(params[GroupLen(params)..])
    decreases |params|
  {
    var n := GroupLen(params);
    var last := |params| - 1;
    var tail := params[n..];
    assert params[..last] + [params[last]] == params;
    GroupLenAppend(params[..last], params[last]);
    if n < last && !params[last].isOr {
      assert params[..last][n..] == tail[..|tail| - 1];
      LastGroupOfTail(params[..last]);
    }
  }

  lemma {:induction false} FirstGroupOfPrefix(params: seq<CondValue>, k: nat)
    requires params != [] && GroupLen(params) <= k <= |params|
    ensures GroupLen(params[..k]) == GroupLen(params)
    decreases |params|
  {
    if |params| > 1 && !params[1].isOr {
      assert params[..k][1..] == params[1..][..k - 1];
      FirstGroupOfPrefix(params[1..], k - 1);
    }
  }

  lemma OnePart(p: CondValue, env: Env)
    ensures Meaning([p], env) == PartMeaning(p, env)
  {
    assert GroupLen([p]) == 1 && [p][..1] == [p] && [p][1..] == [];
    assert All([p], env) == And3(PartMeaning(p, env), All([], env));
  }

  /** The condition or `x`; an empty condition drops out. */
  ghost function OrElse(c: Condition, x: Truth, env: Env): Truth { if IsEmpty(c) then x else Or3(Meaning(c.params, env), x) }

  /** The OR builders, `Or`, `OrNot`, `OrCond` and `OrNotCond`, add an alternative to the whole
      condition, a nested condition as a unit. */
  lemma OrAddsAlternative(c: Condition, a: Atom, d: Condition, env: Env)
    ensures Meaning(OrAtom(c, a).params, env) == OrElse(c, env(a), env)
    ensures Meaning(OrNotAtom(c, a).params, env) == OrElse(c, Not3(env(a)), env)
    ensures Meaning(OrCond(c, d).params, env) == OrElse(c, Meaning(d.params, env), env)
    ensures Meaning(OrNotCond(c, d).params, env) == OrElse(c, Not3(Meaning(d.params, env)), env)
  {
    OrPart(c, CondValue(true, false, Leaf(a)), env);
    OrPart(c, CondValue(true, true, Leaf(a)), env);
    OrPart(c, CondValue(true, false, Nested(d)), env);
    OrPart(c, CondValue(true, true, Nested(d)), env);
  }

  lemma OrPart(c: Condition, p: CondValue, env: Env)
    requires p.isOr
    ensures Meaning(c.params + [p], env) == OrElse(c, PartMeaning(p, env), env)
  {
    if IsEmpty(c) {
      OnePart(p, env);
      assert c.params + [p] == [p];
    } else {
      OrPartAdds(c.params, p, env);
    }
  }

  /** The condition with `x` added to its last AND group only. */
  ghost function AndLast(c: Condition, x: Truth, env: Env): Truth {
    if IsEmpty(c) then x
    else
      var k := LastGroup(c.params);
      Or3(Meaning(c.params[..k], env), And3(All(c.params[k..], env), x))
  }

  /** The AND builders, `And`, `AndNot`, `AndCond` and `AndNotCond`, restrict the last AND group
      of the condition and nothing else, a nested condition as a unit. */
  lemma AndRestrictsLastGroup(c: Condition, a: Atom, d: Condition, env: Env)
    ensures Meaning(AndAtom(c, a).params, env) == AndLast(c, env(a), env)
    ensures Meaning(AndNotAtom(c, a).params, env) == AndLast(c, Not3(env(a)), env)
    ensures Meaning(AndCond(c, d).params, env) == AndLast(c, Meaning(d.params, env), env)
    ensures Meaning(AndNotCond(c, d).params, env) == AndLast(c, Not3(Meaning(d.params, env)), env)
    ensures !IsEmpty(c) ==> Meaning(c.params, env) == AndLast(c, True, env)
  {
    AndPart(c, CondValue(false, false, Leaf(a)), env);
    AndPart(c, CondValue(false, true, Leaf(a)), env);
    AndPart(c, CondValue(false, false, Nested(d)), env);
    AndPart(c, CondValue(false, true, Nested(d)), env);
  }

  lemma AndPart(c: Condition, p: CondValue, env: Env)
    requires !p.isOr
    ensures Meaning(c.params + [p], env) == AndLast(c, PartMeaning(p, env), env)
    ensures !IsEmpty(c) ==> Meaning(c.params, env) == AndLast(c, True, env)
  {
    if IsEmpty(c) {
      OnePart(p, env);
      assert c.params + [p] == [p];
    } else {
      AndPartRestricts(c.params, p, env);
    }
  }
}
